/** Code-point order of strings, and sorted lists of distinct names: what `sorted(...)` of a set gives. */
module Ordering {

  predicate Le(a: string, b: string) {
    a == [] || (b != [] && (a[0] < b[0] || (a[0] == b[0] && Le(a[1..], b[1..]))))
  }

  lemma {:induction false} LeTotal(a: string, b: string)
    ensures Le(a, b) || Le(b, a)
  {
    if a != [] && b != [] && a[0] == b[0] {
      LeTotal(a[1..], b[1..]);
    }
  }

  lemma {:induction false} LeAntisymmetric(a: string, b: string)
    requires Le(a, b) && Le(b, a)
    ensures a == b
  {
    if a != [] && b != [] {
      LeAntisymmetric(a[1..], b[1..]);
      assert a == [a[0]] + a[1..] && b == [b[0]] + b[1..];
    }
  }

  lemma {:induction false} LeTransitive(a: string, b: string, c: string)
    requires Le(a, b) && Le(b, c)
    ensures Le(a, c)
  {
    if a != [] && a[0] == b[0] == c[0] {
      LeTransitive(a[1..], b[1..], c[1..]);
    }
  }

  /** The order in words: one is a beginning of the other, or at the first difference its character is less. */
  lemma {:induction false} LeIff(a: string, b: string)
    ensures Le(a, b) <==> a <= b || exists k :: 0 <= k < |a| && k < |b| && a[..k] == b[..k] && a[k] < b[k]
  {
    if a != [] && b != [] && a[0] == b[0] {
      var x, y := a[1..], b[1..];
      LeIff(x, y);
      assert a == [a[0]] + x && b == [b[0]] + y;
      assert a <= b <==> x <= y;
      if k :| 0 <= k < |x| && k < |y| && x[..k] == y[..k] && x[k] < y[k] {
        assert a[..k + 1] == [a[0]] + x[..k] && b[..k + 1] == [b[0]] + y[..k];
        assert a[k + 1] < b[k + 1];
      }
      if k :| 0 <= k < |a| && k < |b| && a[..k] == b[..k] && a[k] < b[k] {
        assert x[..k - 1] == a[..k][1..] && y[..k - 1] == b[..k][1..];
        assert x[k - 1] < y[k - 1];
      }
    } else if a != [] && b != [] && a[0] < b[0] {
      assert a[..0] == b[..0];
    }
  }

  ghost predicate Least(x: string, s: set<string>) {
    x in s && forall y <- s :: Le(x, y)
  }

  lemma {:induction false} LeastExists(s: set<string>)
    requires s != {}
    ensures exists x :: Least(x, s)
    decreases |s|
  {
    var a :| a in s;
    var rest := s - {a};
    LeTotal(a, a);
    if rest == {} {
      assert s == {a};
      assert Least(a, s);
    } else {
      LeastExists(rest);
      var b :| Least(b, rest);
      LeTotal(a, b);
      if Le(a, b) {
        forall y <- s ensures Le(a, y) {
          if y != a { LeTransitive(a, b, y); }
        }
        assert Least(a, s);
      } else {
        assert Least(b, s);
      }
    }
  }

  /** Strictly increasing, hence without repetition. */
  ghost predicate Increasing(l: seq<string>) {
    forall i, j | 0 <= i < j < |l| :: Le(l[i], l[j]) && l[i] != l[j]
  }

  ghost predicate SortedList(l: seq<string>, s: set<string>) {
    Increasing(l) && (forall x :: x in l <==> x in s)
  }

  /** `sorted(s)`: the elements in increasing order. */
  method Sort(s: set<string>) returns (l: seq<string>)
    ensures SortedList(l, s) && |l| == |s|
  {
    l := [];
    var rest := s;
    while rest != {}
      invariant rest <= s && |l| + |rest| == |s|
      invariant Increasing(l)
      invariant forall x :: x in l <==> x in s - rest
      invariant forall x <- l, y <- rest :: Le(x, y) && x != y
      decreases |rest|
    {
      LeastExists(rest);
      var x :| x in rest && forall y <- rest :: Le(x, y);
      l := l + [x];
      rest := rest - {x};
    }
  }

  /** A set has only one sorted list. */
  lemma {:induction false} SortedUnique(l: seq<string>, m: seq<string>, s: set<string>)
    requires SortedList(l, s) && SortedList(m, s)
    ensures l == m
    decreases |l|
  {
    assert l != [] ==> l[0] in s;
    assert m != [] ==> m[0] in s;
    if l != [] && m != [] {
      assert l[0] == m[0] by {
        var i :| 0 <= i < |m| && m[i] == l[0];
        var j :| 0 <= j < |l| && l[j] == m[0];
        if i > 0 && j > 0 {
          LeAntisymmetric(l[0], m[0]);
        }
      }
      var t := s - {l[0]};
      forall x ensures x in l[1..] <==> x in t {
        if x in l[1..] {
          var i :| 1 <= i < |l| && l[i] == x;
          assert l[0] != l[i];
        }
      }
      forall x ensures x in m[1..] <==> x in t {
        if x in m[1..] {
          var i :| 1 <= i < |m| && m[i] == x;
          assert m[0] != m[i];
        }
      }
      SortedUnique(l[1..], m[1..], t);
      assert l == [l[0]] + l[1..] && m == [m[0]] + m[1..];
    }
  }

  // ---------------------------------------------------------------- sorted(..., key=...)

  function Insert<T>(key: T -> string, e: T, l: seq<T>): seq<T> {
    if l == [] then [e]
    else if Le(key(l[0]), key(e)) then [l[0]] + Insert(key, e, l[1..])
    else [e] + l
  }

  /** Stable: later elements go behind earlier ones with the same key. */
  function SortBy<T>(key: T -> string, l: seq<T>): seq<T> {
    if l == [] then [] else Insert(key, l[|l| - 1], SortBy(key, l[..|l| - 1]))
  }

  ghost predicate OrderedBy<T>(key: T -> string, l: seq<T>) {
    forall i, j | 0 <= i < j < |l| :: Le(key(l[i]), key(l[j]))
  }

  lemma {:induction false} InsertOrders<T>(key: T -> string, e: T, l: seq<T>)
    requires OrderedBy(key, l)
    ensures OrderedBy(key, Insert(key, e, l)) && multiset(Insert(key, e, l)) == multiset(l) + multiset{e}
  {
    if l != [] {
      assert l == [l[0]] + l[1..];
      if Le(key(l[0]), key(e)) {
        InsertOrders(key, e, l[1..]);
        var t := Insert(key, e, l[1..]);
        forall x | x in t ensures Le(key(l[0]), key(x)) {
          assert x in multiset(t);
          assert x == e || x in l[1..];
        }
        OrderedCons(key, l[0], t);
      } else {
        LeTotal(key(l[0]), key(e));
        forall x | x in l ensures Le(key(e), key(x)) {
          var j :| 0 <= j < |l| && l[j] == x;
          if j > 0 { LeTransitive(key(e), key(l[0]), key(l[j])); }
        }
        OrderedCons(key, e, l);
      }
    }
  }

  lemma OrderedCons<T>(key: T -> string, first: T, rest: seq<T>)
    requires OrderedBy(key, rest) && forall x <- rest :: Le(key(first), key(x))
    ensures OrderedBy(key, [first] + rest)
  {
  }

  lemma {:induction false} SortBySorts<T>(key: T -> string, l: seq<T>)
    ensures OrderedBy(key, SortBy(key, l)) && multiset(SortBy(key, l)) == multiset(l)
  {
    if l != [] {
      assert l == l[..|l| - 1] + [l[|l| - 1]];
      SortBySorts(key, l[..|l| - 1]);
      InsertOrders(key, l[|l| - 1], SortBy(key, l[..|l| - 1]));
    }
  }

  /** A list that is in order is left as it is. */
  lemma {:induction false} SortBySorted<T>(key: T -> string, l: seq<T>)
    requires OrderedBy(key, l)
    ensures SortBy(key, l) == l
  {
    if l != [] {
      var front := l[..|l| - 1];
      SortBySorted(key, front);
      InsertLast(key, l[|l| - 1], front);
      assert l == front + [l[|l| - 1]];
    }
  }

  lemma {:induction false} InsertLast<T>(key: T -> string, e: T, l: seq<T>)
    requires forall x <- l :: Le(key(x), key(e))
    ensures Insert(key, e, l) == l + [e]
  {
    if l != [] {
      InsertLast(key, e, l[1..]);
      assert l == [l[0]] + l[1..];
    }
  }

  function Self(x: string): string {
    x
  }

  /** `sorted(l)` of a list of strings. */
  function Sorted(l: seq<string>): seq<string> {
    SortBy(Self, l)
  }

  ghost predicate Distinct<T(!new)>(s: seq<T>) {
    forall i, j | 0 <= i < j < |s| :: s[i] != s[j]
  }

  lemma DistinctConcat<T(!new)>(a: seq<T>, b: seq<T>)
    ensures Distinct(a + b) <==> Distinct(a) && Distinct(b) && forall x <- a :: x !in b
  {
    if Distinct(a + b) {
      forall i, j | 0 <= i < |a| && 0 <= j < |b| ensures a[i] != b[j] {
        assert (a + b)[i] != (a + b)[|a| + j];
      }
      forall i, j | 0 <= i < j < |b| ensures b[i] != b[j] {
        assert (a + b)[|a| + i] != (a + b)[|a| + j];
      }
      forall i, j | 0 <= i < j < |a| ensures a[i] != a[j] {
        assert (a + b)[i] != (a + b)[j];
      }
    }
    if Distinct(a) && Distinct(b) && forall x <- a :: x !in b {
      forall i, j | 0 <= i < j < |a + b| ensures (a + b)[i] != (a + b)[j] {
        if i < |a| <= j {
          assert a[i] in a && b[j - |a|] in b;
        }
      }
    }
  }

  lemma {:induction false} DistinctMultiset<T(!new)>(a: seq<T>, b: seq<T>)
    requires multiset(a) == multiset(b) && Distinct(a)
    ensures Distinct(b) && |a| == |b| && forall x :: x in a <==> x in b
  {
    assert |multiset(a)| == |a| && |multiset(b)| == |b|;
    forall x ensures x in a <==> x in b {
      assert x in multiset(a) <==> x in multiset(b);
    }
    forall i, j | 0 <= i < j < |b| ensures b[i] != b[j] {
      if b[i] == b[j] {
        TwiceCounts(b, i, j);
        OnceCounts(a, b[i]);
      }
    }
  }

  lemma TwiceCounts<T(!new)>(s: seq<T>, i: nat, j: nat)
    requires i < j < |s| && s[i] == s[j]
    ensures multiset(s)[s[i]] >= 2
  {
    assert s == s[..j] + [s[j]] + s[j + 1..];
    assert s[i] in s[..j];
  }

  lemma {:induction false} OnceCounts<T(!new)>(s: seq<T>, x: T)
    requires Distinct(s)
    ensures multiset(s)[x] <= 1
  {
    if s != [] {
      assert s == [s[0]] + s[1..];
      OnceCounts(s[1..], x);
      if x == s[0] {
        assert x !in s[1..];
      }
    }
  }

  /** A list without repetition sorts into the sorted list of its elements. */
  lemma SortedIsSortedList(l: seq<string>)
    requires Distinct(l)
    ensures SortedList(Sorted(l), set x | x in l) && |Sorted(l)| == |l|
  {
    SortBySorts(Self, l);
    DistinctMultiset(l, Sorted(l));
  }

  lemma {:induction false} Included<T(!new)>(a: set<T>, b: set<T>)
    requires a <= b
    ensures |a| <= |b| && (|a| == |b| ==> a == b)
    decreases |a|
  {
    if x :| x in a {
      Included(a - {x}, b - {x});
      assert a == (a - {x}) + {x} && b == (b - {x}) + {x};
    } else {
      assert a == {};
    }
  }
}
