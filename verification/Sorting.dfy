/** Sorting by a strict total order. */
module Sorting {

  ghost predicate StrictTotal<T(!new)>(less: (T, T) -> bool) {
    && (forall a, b :: !(less(a, b) && less(b, a)))
    && (forall a, b :: a == b || less(a, b) || less(b, a))
    && (forall a, b, c :: less(a, b) && less(b, c) ==> less(a, c))
  }

  function Insert<T>(less: (T, T) -> bool, x: T, s: seq<T>): seq<T> {
    if s == [] || !less(s[0], x) then [x] + s else [s[0]] + Insert(less, x, s[1..])
  }

  function Sort<T>(less: (T, T) -> bool, s: seq<T>): seq<T> {
    if s == [] then [] else Insert(less, s[0], Sort(less, s[1..]))
  }

  /** Nothing in `s` comes before `a`. */
  predicate First<T>(less: (T, T) -> bool, a: T, s: seq<T>) {
    forall i :: 0 <= i < |s| ==> !less(s[i], a)
  }

  predicate InOrder<T>(less: (T, T) -> bool, s: seq<T>) {
    s == [] || (First(less, s[0], s[1..]) && InOrder(less, s[1..]))
  }

  lemma {:induction false} InOrderAt<T>(less: (T, T) -> bool, s: seq<T>, i: nat, j: nat)
    requires InOrder(less, s) && i < j < |s|
    ensures !less(s[j], s[i])
  {
    if i == 0 {
      assert s[1..][j - 1] == s[j];
    } else {
      InOrderAt(less, s[1..], i - 1, j - 1);
    }
  }

  lemma {:induction false} FirstOfBoth<T(!new)>(less: (T, T) -> bool, x: T, y: T, rest: seq<T>)
    requires StrictTotal(less) && First(less, y, rest) && !less(y, x)
    ensures First(less, x, [y] + rest)
  {
    var all := [y] + rest;
    forall i | 0 <= i < |all| ensures !less(all[i], x) {
      if i > 0 {
        assert all[i] == rest[i - 1];
      }
    }
  }

  lemma {:induction false} InsertKeeps<T>(less: (T, T) -> bool, x: T, s: seq<T>)
    ensures multiset(Insert(less, x, s)) == multiset(s) + multiset{x}
  {
    if s != [] {
      assert s == [s[0]] + s[1..];
      if less(s[0], x) {
        InsertKeeps(less, x, s[1..]);
      }
    }
  }

  lemma {:induction false} InsertSorts<T(!new)>(less: (T, T) -> bool, x: T, s: seq<T>)
    requires StrictTotal(less) && InOrder(less, s)
    ensures InOrder(less, Insert(less, x, s))
  {
    if s == [] {
      assert ([x] + s)[1..] == [];
    } else if !less(s[0], x) {
      assert s == [s[0]] + s[1..];
      FirstOfBoth(less, x, s[0], s[1..]);
      assert ([x] + s)[1..] == s;
    } else {
      var rest := Insert(less, x, s[1..]);
      InsertSorts(less, x, s[1..]);
      InsertKeeps(less, x, s[1..]);
      FirstWith(less, s[0], x, s[1..], rest);
      assert ([s[0]] + rest)[1..] == rest;
    }
  }

  lemma {:induction false} FirstWith<T(!new)>(less: (T, T) -> bool, a: T, x: T, s: seq<T>, r: seq<T>)
    requires StrictTotal(less) && First(less, a, s) && less(a, x) && multiset(r) == multiset(s) + multiset{x}
    ensures First(less, a, r)
  {
    forall i | 0 <= i < |r| ensures !less(r[i], a) {
      assert r[i] in multiset(r);
      if r[i] != x {
        assert r[i] in s;
      }
    }
  }

  /** Sorting yields a sorted permutation. */
  lemma {:induction false} SortSorts<T(!new)>(less: (T, T) -> bool, s: seq<T>)
    requires StrictTotal(less)
    ensures InOrder(less, Sort(less, s)) && multiset(Sort(less, s)) == multiset(s)
  {
    if s != [] {
      SortSorts(less, s[1..]);
      InsertSorts(less, s[0], Sort(less, s[1..]));
      InsertKeeps(less, s[0], Sort(less, s[1..]));
      assert s == [s[0]] + s[1..];
    }
  }

  lemma {:induction false} HeadComesFirst<T>(less: (T, T) -> bool, a: seq<T>, x: T)
    requires InOrder(less, a) && x in a
    ensures x == a[0] || !less(x, a[0])
  {
    var i :| 0 <= i < |a| && a[i] == x;
    if i > 0 {
      InOrderAt(less, a, 0, i);
    }
  }

  lemma {:induction false} TailOf<T>(a: seq<T>)
    requires a != []
    ensures multiset(a[1..]) == multiset(a) - multiset{a[0]}
  {
    assert a == [a[0]] + a[1..];
  }

  lemma {:induction false} HeadsAgree<T(!new)>(less: (T, T) -> bool, a: seq<T>, b: seq<T>)
    requires StrictTotal(less) && InOrder(less, a) && InOrder(less, b) && multiset(a) == multiset(b) && a != []
    ensures b != [] && a[0] == b[0] && multiset(a[1..]) == multiset(b[1..])
  {
    assert a[0] in multiset(b);
    assert b[0] in multiset(a);
    HeadComesFirst(less, b, a[0]);
    HeadComesFirst(less, a, b[0]);
    TailOf(a);
    TailOf(b);
  }

  /** There is only one order. */
  lemma {:induction false} OrderIsUnique<T(!new)>(less: (T, T) -> bool, a: seq<T>, b: seq<T>)
    requires StrictTotal(less) && InOrder(less, a) && InOrder(less, b) && multiset(a) == multiset(b)
    ensures a == b
  {
    if a == [] {
      assert |multiset(b)| == 0;
    } else {
      HeadsAgree(less, a, b);
      OrderIsUnique(less, a[1..], b[1..]);
      assert a == [a[0]] + a[1..] && b == [b[0]] + b[1..];
    }
  }

  /** The order of the input does not matter. */
  lemma {:induction false} SortForgetsOrder<T(!new)>(less: (T, T) -> bool, a: seq<T>, b: seq<T>)
    requires StrictTotal(less) && multiset(a) == multiset(b)
    ensures Sort(less, a) == Sort(less, b)
  {
    SortSorts(less, a);
    SortSorts(less, b);
    OrderIsUnique(less, Sort(less, a), Sort(less, b));
  }

  lemma {:induction false} SortOfSorted<T>(less: (T, T) -> bool, s: seq<T>)
    requires InOrder(less, s)
    ensures Sort(less, s) == s
  {
    if s != [] {
      SortOfSorted(less, s[1..]);
      assert s == [s[0]] + s[1..];
      assert |s| > 1 ==> !less(s[1..][0], s[0]);
    }
  }
}
