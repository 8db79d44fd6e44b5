/** Lexicographic order on strings, and the sorted listing of a set of names. */
module SortedNames {

  predicate Less(a: string, b: string) {
    b != "" && (a == "" || a[0] < b[0] || (a[0] == b[0] && Less(a[1..], b[1..])))
  }

  lemma {:induction false} LessTransitive(a: string, b: string, c: string)
    requires Less(a, b) && Less(b, c)
    ensures Less(a, c)
  {
    if a != "" && a[0] == b[0] && b[0] == c[0] {
      LessTransitive(a[1..], b[1..], c[1..]);
    }
  }

  lemma {:induction false} LessTotal(a: string, b: string)
    ensures a == b || Less(a, b) || Less(b, a)
    ensures !(Less(a, b) && Less(b, a)) && !Less(a, a)
  {
    if a != "" && b != "" {
      assert a == [a[0]] + a[1..] && b == [b[0]] + b[1..];
      LessTotal(a[1..], b[1..]);
    }
    if a != "" {
      LessTotal(a[1..], a[1..]);
    }
  }

  /** The strings agree up to `k`, where `a` ends or has the smaller character. */
  predicate SmallerAt(a: string, b: string, k: int) {
    0 <= k <= |a| && k < |b| && a[..k] == b[..k] && (k == |a| || a[k] < b[k])
  }

  /** The order is decided at the first difference. */
  lemma {:induction false} LessAtFirstDifference(a: string, b: string)
    ensures Less(a, b) <==> exists k :: SmallerAt(a, b, k)
  {
    if Less(a, b) {
      if a == "" || a[0] < b[0] {
        assert SmallerAt(a, b, 0);
      } else {
        LessAtFirstDifference(a[1..], b[1..]);
        var k :| SmallerAt(a[1..], b[1..], k);
        assert a[..k + 1] == [a[0]] + a[1..][..k] && b[..k + 1] == [b[0]] + b[1..][..k];
        assert SmallerAt(a, b, k + 1);
      }
    }
    if k :| SmallerAt(a, b, k) {
      SmallerIsLess(a, b, k);
    }
  }

  lemma {:induction false} SmallerIsLess(a: string, b: string, k: int)
    requires SmallerAt(a, b, k)
    ensures Less(a, b)
  {
    if k > 0 {
      assert a[0] == a[..k][0] == b[..k][0] == b[0];
      assert a[1..][..k - 1] == a[..k][1..] && b[1..][..k - 1] == b[..k][1..];
      SmallerIsLess(a[1..], b[1..], k - 1);
    }
  }

  lemma {:induction false} LessByLast(a: string, b: string, x: char, y: char)
    requires |a| == |b|
    ensures Less(a + [x], b + [y]) <==> Less(a, b) || (a == b && x < y)
  {
    if a == "" {
      assert a + [x] == [x] && b + [y] == [y] && !Less([x][1..], [y][1..]);
    } else {
      assert (a + [x])[1..] == a[1..] + [x] && (b + [y])[1..] == b[1..] + [y];
      assert a == [a[0]] + a[1..] && b == [b[0]] + b[1..];
      LessByLast(a[1..], b[1..], x, y);
    }
  }

  predicate Ascending(s: seq<string>) {
    forall i, j :: 0 <= i < j < |s| ==> Less(s[i], s[j])
  }

  /** Inserts a new name where it belongs. */
  function Insert(x: string, s: seq<string>): (r: seq<string>)
    requires Ascending(s) && x !in s
    ensures Ascending(r) && forall n :: n in r <==> n == x || n in s
  {
    if s == [] then [x]
    else
      LessTotal(x, s[0]);
      assert s == [s[0]] + s[1..];
      if Less(x, s[0]) then
        assert forall j :: 0 < j < |s| ==> Less(x, s[j]) by {
          forall j | 0 < j < |s| ensures Less(x, s[j]) {
            LessTransitive(x, s[0], s[j]);
          }
        }
        [x] + s
      else
        var r := Insert(x, s[1..]);
        assert forall j :: 0 <= j < |r| ==> r[j] == x || r[j] in s[1..];
        [s[0]] + r
  }

  /** The names of a set in ascending order. */
  ghost function Listing(names: set<string>): (s: seq<string>)
    ensures Ascending(s) && forall n :: n in s <==> n in names
  {
    if names == {} then []
    else
      var n :| n in names;
      Insert(n, Listing(names - {n}))
  }

  method Sorted(names: set<string>) returns (s: seq<string>)
    ensures s == Listing(names)
  {
    s := [];
    var left := names;
    while left != {}
      invariant left <= names && Ascending(s)
      invariant forall n :: n in s <==> n in names && n !in left
    {
      var n :| n in left;
      s := Insert(n, s);
      left := left - {n};
    }
    AscendingUnique(s, Listing(names));
  }

  lemma {:induction false} HeadIsApart(s: seq<string>, n: string)
    requires Ascending(s) && s != []
    ensures n in s[1..] <==> n in s && n != s[0]
  {
    LessTotal(s[0], s[0]);
    assert s == [s[0]] + s[1..];
    assert forall j :: 0 <= j < |s| - 1 ==> s[1..][j] == s[j + 1];
  }

  /** A set has one ascending listing. */
  lemma {:induction false} AscendingUnique(a: seq<string>, b: seq<string>)
    requires Ascending(a) && Ascending(b) && forall n :: n in a <==> n in b
    ensures a == b
  {
    assert a != [] ==> a[0] in a;
    assert b != [] ==> b[0] in b;
    if a != [] && b != [] {
      LessTotal(a[0], b[0]);
      assert a[0] == b[0];
      forall n ensures n in a[1..] <==> n in b[1..] {
        HeadIsApart(a, n);
        HeadIsApart(b, n);
        assert n in a <==> n in b;
      }
      AscendingUnique(a[1..], b[1..]);
      assert a == [a[0]] + a[1..] && b == [b[0]] + b[1..];
    }
  }
}
