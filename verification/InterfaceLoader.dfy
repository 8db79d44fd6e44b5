/** Which definition of an interface is loaded when the file walk finds several. */
module InterfaceLoader {
  import SN = SortedNames
  import opened Sorting
  import Text

  /** A definition file: the name of the directory it is in, and its path. */
  datatype Location = Location(parent: string, path: string)

  predicate InCurrent(l: Location) {
    l.parent == "current"
  }

  /** Definitions under `current` come last; otherwise by directory name, then by path. */
  predicate Before(a: Location, b: Location) {
    if InCurrent(a) != InCurrent(b) then InCurrent(b)
    else SN.Less(a.parent, b.parent) || (a.parent == b.parent && SN.Less(a.path, b.path))
  }

  lemma {:induction false} BeforeTransitive(a: Location, b: Location, c: Location)
    requires Before(a, b) && Before(b, c)
    ensures Before(a, c)
  {
    if SN.Less(a.parent, b.parent) && SN.Less(b.parent, c.parent) {
      SN.LessTransitive(a.parent, b.parent, c.parent);
    }
    if SN.Less(a.path, b.path) && SN.Less(b.path, c.path) {
      SN.LessTransitive(a.path, b.path, c.path);
    }
  }

  lemma {:induction false} BeforeTotal(a: Location, b: Location)
    ensures a == b || Before(a, b) || Before(b, a)
    ensures !(Before(a, b) && Before(b, a)) && !Before(a, a)
  {
    SN.LessTotal(a.parent, b.parent);
    SN.LessTotal(a.path, b.path);
    SN.LessTotal(a.parent, a.parent);
    SN.LessTotal(a.path, a.path);
  }

  lemma {:induction false} BeforeIsTotal()
    ensures StrictTotal(Before)
  {
    forall a, b ensures !(Before(a, b) && Before(b, a)) && (a == b || Before(a, b) || Before(b, a)) {
      BeforeTotal(a, b);
    }
    forall a, b, c | Before(a, b) && Before(b, c) ensures Before(a, c) {
      BeforeTransitive(a, b, c);
    }
  }

  /** The definitions in the order in which they are loaded. */
  function LoadOrder(found: seq<Location>): seq<Location> {
    Sort(Before, found)
  }

  lemma {:induction false} LoadOrderIsSorted(found: seq<Location>)
    ensures InOrder(Before, LoadOrder(found)) && multiset(LoadOrder(found)) == multiset(found)
  {
    BeforeIsTotal();
    SortSorts(Before, found);
  }

  /** The names in the order in which they first occur: the insertion order of a dictionary. */
  function FirstNames(base: Location -> string, ls: seq<Location>): seq<string> {
    if ls == [] then []
    else
      var k := |ls| - 1;
      var init := FirstNames(base, ls[..k]);
      if base(ls[k]) in init then init else init + [base(ls[k])]
  }

  lemma {:induction false} FirstNamesOccur(base: Location -> string, ls: seq<Location>, n: string) returns (p: nat)
    requires n in FirstNames(base, ls)
    ensures p < |ls| && base(ls[p]) == n
  {
    var k := |ls| - 1;
    if n in FirstNames(base, ls[..k]) {
      p := FirstNamesOccur(base, ls[..k], n);
    } else {
      p := k;
    }
  }

  lemma {:induction false} AllNamesOccur(base: Location -> string, ls: seq<Location>, q: nat)
    requires q < |ls|
    ensures base(ls[q]) in FirstNames(base, ls)
  {
    var k := |ls| - 1;
    if q < k {
      assert ls[..k][q] == ls[q];
      AllNamesOccur(base, ls[..k], q);
    }
  }

  /** Each name is listed by its first definition: before any definition of a later name there is one of an
      earlier name. */
  lemma {:induction false} NamesInOrder(base: Location -> string, ls: seq<Location>, i: nat, j: nat, q: nat) returns (p: nat)
    requires i < j < |FirstNames(base, ls)| && q < |ls| && base(ls[q]) == FirstNames(base, ls)[j]
    ensures p < q && base(ls[p]) == FirstNames(base, ls)[i]
  {
    var k := |ls| - 1;
    var init := ls[..k];
    var d := FirstNames(base, init);
    if q < k {
      AllNamesOccur(base, init, q);
      assert init[q] == ls[q];
      if j < |d| {
        p := NamesInOrder(base, init, i, j, q);
      } else {
        assert false;
      }
    } else {
      assert i < |d|;
      p := FirstNamesOccur(base, init, d[i]);
    }
  }

  // ---- the dictionary -----------------------------------------------------

  /** `d` holds, for every defined name and no other, the last of its definitions. */
  ghost predicate HoldsLast(base: Location -> string, ls: seq<Location>, d: map<string, Location>) {
    && (forall n :: n in d ==> d[n] in ls && base(d[n]) == n)
    && (forall i :: 0 <= i < |ls| ==> base(ls[i]) in d && !Before(d[base(ls[i])], ls[i]))
  }

  lemma {:induction false} HoldsAppend(base: Location -> string, init: seq<Location>, l: Location, d: map<string, Location>)
    requires HoldsLast(base, init, d) && forall j :: 0 <= j < |init| ==> !Before(l, init[j])
    ensures HoldsLast(base, init + [l], d[base(l) := l])
  {
    BeforeTotal(l, l);
  }

  lemma {:induction false} HoldsNext(base: Location -> string, ls: seq<Location>, i: nat, d: map<string, Location>)
    requires InOrder(Before, ls) && i < |ls| && HoldsLast(base, ls[..i], d)
    ensures HoldsLast(base, ls[..i + 1], d[base(ls[i]) := ls[i]])
  {
    assert ls[..i + 1] == ls[..i] + [ls[i]];
    forall j | 0 <= j < i ensures !Before(ls[i], ls[j]) {
      InOrderAt(Before, ls, j, i);
    }
    HoldsAppend(base, ls[..i], ls[i], d);
  }

  lemma {:induction false} NextName(base: Location -> string, ls: seq<Location>, i: nat)
    requires i < |ls|
    ensures ls[..i + 1] == ls[..i] + [ls[i]]
    ensures var init := FirstNames(base, ls[..i]);
      FirstNames(base, ls[..i + 1]) == if base(ls[i]) in init then init else init + [base(ls[i])]
  {
    assert ls[..i + 1][..i] == ls[..i];
  }

  lemma {:induction false} NamesAreKeys(base: Location -> string, ls: seq<Location>, d: map<string, Location>)
    requires HoldsLast(base, ls, d)
    ensures forall n :: n in FirstNames(base, ls) <==> n in d
  {
    forall n ensures n in FirstNames(base, ls) <==> n in d {
      NamesOccur(base, ls, n);
      if n in d {
        var i :| 0 <= i < |ls| && ls[i] == d[n];
      }
    }
  }

  lemma {:induction false} NamesOccur(base: Location -> string, ls: seq<Location>, n: string)
    ensures n in FirstNames(base, ls) <==> exists i :: 0 <= i < |ls| && base(ls[i]) == n
  {
    if ls != [] {
      var k := |ls| - 1;
      NamesOccur(base, ls[..k], n);
      assert forall i :: 0 <= i < k ==> ls[..k][i] == ls[i];
    }
  }

  /** Loads the definitions in order, later ones over earlier ones of the same name.  `order` is the order
      of the dictionary's keys, and `all` every definition loaded. */
  method LoadInterfaces(base: Location -> string, found: seq<Location>)
      returns (order: seq<string>, loaded: map<string, Location>, all: seq<Location>)
    ensures all == LoadOrder(found) && order == FirstNames(base, LoadOrder(found))
    ensures HoldsLast(base, found, loaded) && forall n :: n in order <==> n in loaded
  {
    var ls := LoadOrder(found);
    LoadOrderIsSorted(found);
    order, loaded, all := [], map[], [];
    for i := 0 to |ls|
      invariant all == ls[..i] && order == FirstNames(base, ls[..i]) && HoldsLast(base, ls[..i], loaded)
    {
      HoldsNext(base, ls, i, loaded);
      NextName(base, ls, i);
      if base(ls[i]) !in order {
        order := order + [base(ls[i])];
      }
      loaded := loaded[base(ls[i]) := ls[i]];
      all := all + [ls[i]];
    }
    assert ls[..|ls|] == ls;
    NamesAreKeys(base, ls, loaded);
    HoldsSame(base, ls, found, loaded);
  }

  lemma {:induction false} HoldsSame(base: Location -> string, a: seq<Location>, b: seq<Location>, d: map<string, Location>)
    requires multiset(a) == multiset(b) && HoldsLast(base, a, d)
    ensures HoldsLast(base, b, d)
  {
    forall n | n in d ensures d[n] in b && base(d[n]) == n {
      assert d[n] in multiset(a);
    }
    forall i | 0 <= i < |b| ensures base(b[i]) in d && !Before(d[base(b[i])], b[i]) {
      assert b[i] in multiset(b);
      assert b[i] in a;
    }
  }

  /** The order in which the walk finds the definitions matters to nothing: neither to the dictionary, nor
      to the order of its keys, nor to the list of all definitions. */
  lemma {:induction false} WalkOrderIsIrrelevant(base: Location -> string, a: seq<Location>, b: seq<Location>,
                                                 d: map<string, Location>, e: map<string, Location>)
    requires multiset(a) == multiset(b) && HoldsLast(base, a, d) && HoldsLast(base, b, e)
    ensures d == e && LoadOrder(a) == LoadOrder(b) && FirstNames(base, LoadOrder(a)) == FirstNames(base, LoadOrder(b))
  {
    BeforeIsTotal();
    SortForgetsOrder(Before, a, b);
    HoldsSame(base, b, a, e);
    HoldsUnique(base, a, d, e);
  }

  lemma {:induction false} HoldsUnique(base: Location -> string, a: seq<Location>, d: map<string, Location>, e: map<string, Location>)
    requires HoldsLast(base, a, d) && HoldsLast(base, a, e)
    ensures d == e
  {
    forall n | n in d ensures n in e && d[n] == e[n] {
      assert d[n] in a;
      BeforeTotal(d[n], e[n]);
      assert e[n] in a;
    }
    forall n | n in e ensures n in d {
      assert e[n] in a;
    }
  }

  /** A definition under `current` always wins. */
  lemma {:induction false} CurrentWins(base: Location -> string, ls: seq<Location>, d: map<string, Location>, l: Location)
    requires HoldsLast(base, ls, d) && l in ls && InCurrent(l)
    ensures base(l) in d && InCurrent(d[base(l)])
  {
  }

  /** The characters of `a` come first where the two strings first differ. */
  ghost predicate Smaller(a: string, b: string) {
    exists k :: SN.SmallerAt(a, b, k)
  }

  /** A definition is loaded exactly when each other one of its name gives way: to one under `current`
      if it is not there itself, else to a greater directory name, else to a greater path. */
  lemma {:induction false} GreatestWins(base: Location -> string, ls: seq<Location>, d: map<string, Location>, l: Location)
    requires HoldsLast(base, ls, d) && l in ls
    ensures base(l) in d
    ensures d[base(l)] == l <==>
      forall m :: m in ls && base(m) == base(l) && m != l ==>
        if m.parent == "current" || l.parent == "current" then
          l.parent == "current" && (m.parent == "current" ==> Smaller(m.path, l.path))
        else Smaller(m.parent, l.parent) || (m.parent == l.parent && Smaller(m.path, l.path))
  {
    forall m | m in ls && base(m) == base(l) && m != l
      ensures Before(m, l) <==>
        if m.parent == "current" || l.parent == "current" then
          l.parent == "current" && (m.parent == "current" ==> Smaller(m.path, l.path))
        else Smaller(m.parent, l.parent) || (m.parent == l.parent && Smaller(m.path, l.path))
    {
      BeforeInWords(m, l);
    }
    WinnerIsLast(base, ls, d, l);
  }

  lemma {:induction false} BeforeInWords(m: Location, l: Location)
    ensures Before(m, l) <==>
      if m.parent == "current" || l.parent == "current" then
        l.parent == "current" && (m.parent == "current" ==> Smaller(m.path, l.path))
      else Smaller(m.parent, l.parent) || (m.parent == l.parent && Smaller(m.path, l.path))
  {
    SN.LessAtFirstDifference(m.parent, l.parent);
    SN.LessAtFirstDifference(m.path, l.path);
    SN.LessTotal(m.parent, l.parent);
  }

  lemma {:induction false} WinnerIsLast(base: Location -> string, ls: seq<Location>, d: map<string, Location>, l: Location)
    requires HoldsLast(base, ls, d) && l in ls
    ensures base(l) in d
    ensures d[base(l)] == l <==> forall m :: m in ls && base(m) == base(l) && m != l ==> Before(m, l)
  {
    var w := d[base(l)];
    BeforeTotal(w, l);
    if w == l {
      forall m | m in ls && base(m) == base(l) && m != l ensures Before(m, l) {
        BeforeTotal(m, l);
      }
    }
  }

  /** Numerals of the same length are ordered as their numbers. */
  lemma {:induction false} NumeralsInOrder(n: nat, m: nat)
    requires |Text.Decimal(n)| == |Text.Decimal(m)|
    ensures SN.Less(Text.Decimal(n), Text.Decimal(m)) <==> n < m
    decreases n + m
  {
    if n < 10 || m < 10 {
      SN.LessByLast("", "", Text.Digit(n % 10), Text.Digit(m % 10));
    } else {
      NumeralsInOrder(n / 10, m / 10);
      NumeralsInOrder(m / 10, n / 10);
      SN.LessTotal(Text.Decimal(n / 10), Text.Decimal(m / 10));
      SN.LessByLast(Text.Decimal(n / 10), Text.Decimal(m / 10), Text.Digit(n % 10), Text.Digit(m % 10));
    }
  }

  /** Without `current`, of two numbered directories whose numbers have as many digits the later version is loaded. */
  lemma {:induction false} LaterVersionWins(base: Location -> string, a: Location, b: Location, n: nat, m: nat, d: map<string, Location>)
    requires a.parent == Text.Decimal(n) && b.parent == Text.Decimal(m) && base(a) == base(b) && HoldsLast(base, [a, b], d)
    requires n < m && |Text.Decimal(n)| == |Text.Decimal(m)|
    ensures base(b) in d && d[base(b)] == b
  {
    NumeralsInOrder(n, m);
    Text.DecimalIsDigits(n);
    Text.DecimalIsDigits(m);
    assert a.parent[0] != 'c' && b.parent[0] != 'c';
    WinnerIsLast(base, [a, b], d, b);
  }

  /** With more digits it is not: version 9 is loaded rather than version 10. */
  lemma {:induction false} NineBeatsTen(base: Location -> string, a: Location, b: Location, d: map<string, Location>)
    requires a.parent == "9" && b.parent == "10" && base(a) == base(b) && HoldsLast(base, [a, b], d)
    ensures base(a) in d && d[base(a)] == a
  {
    SN.SmallerIsLess("10", "9", 0);
    WinnerIsLast(base, [a, b], d, a);
  }
}
