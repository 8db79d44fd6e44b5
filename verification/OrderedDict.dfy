/** Dictionaries that remember insertion order, kept as the list of their entries. */
module OrderedDict {

  predicate DistinctKeys<T(!new)>(key: T -> string, d: seq<T>) {
    forall i, j :: 0 <= i < j < |d| ==> key(d[i]) != key(d[j])
  }

  /** Assigns to the key of `t`: an old entry is overwritten where it stands, a new one goes last. */
  function Put<T(!new)>(key: T -> string, d: seq<T>, t: T): (r: seq<T>)
    requires DistinctKeys(key, d)
    ensures DistinctKeys(key, r) && t in r
    ensures forall u :: u in r ==> u == t || u in d
    ensures forall u :: u in d && key(u) != key(t) ==> u in r
  {
    if d == [] then [t]
    else
      assert d == [d[0]] + d[1..];
      if key(d[0]) == key(t) then [t] + d[1..]
      else
        var r := Put(key, d[1..], t);
        assert forall i :: 0 <= i < |r| ==> r[i] == t || r[i] in d[1..];
        [d[0]] + r
  }

  /** The dictionary a list of assignments builds: the last assignment to a key wins. */
  function FromList<T(!new)>(key: T -> string, list: seq<T>): (d: seq<T>)
    ensures DistinctKeys(key, d)
    ensures forall u :: u in d ==> u in list
  {
    if list == [] then [] else Put(key, FromList(key, list[..|list| - 1]), list[|list| - 1])
  }

  /** Nothing is lost when equal keys always carry equal entries. */
  lemma {:induction false} FromListKeeps<T(!new)>(key: T -> string, list: seq<T>, u: T)
    requires forall a, b :: a in list && b in list && key(a) == key(b) ==> a == b
    requires u in list
    ensures u in FromList(key, list)
  {
    var last := list[|list| - 1];
    assert list == list[..|list| - 1] + [last];
    if u != last {
      FromListKeeps(key, list[..|list| - 1], u);
    }
  }

  lemma {:induction false} PutNew<T(!new)>(key: T -> string, d: seq<T>, t: T)
    requires DistinctKeys(key, d) && forall i :: 0 <= i < |d| ==> key(d[i]) != key(t)
    ensures Put(key, d, t) == d + [t]
  {
    if d != [] {
      PutNew(key, d[1..], t);
      assert d == [d[0]] + d[1..];
    }
  }

  lemma {:induction false} NewKey<T(!new)>(key: T -> string, list: seq<T>, n: nat)
    requires DistinctKeys(key, list) && n < |list|
    ensures DistinctKeys(key, list[..n]) && Put(key, list[..n], list[n]) == list[..n + 1]
  {
    PutNew(key, list[..n], list[n]);
    assert list[..n + 1] == list[..n] + [list[n]];
  }

  lemma {:induction false} FromLonger<T(!new)>(key: T -> string, list: seq<T>, n: nat)
    requires n < |list|
    ensures FromList(key, list[..n + 1]) == Put(key, FromList(key, list[..n]), list[n])
  {
    assert list[..n + 1][..n] == list[..n];
  }

  /** A list without repeated keys is its own dictionary. */
  lemma {:induction false} FromDistinctList<T(!new)>(key: T -> string, list: seq<T>, n: nat)
    requires DistinctKeys(key, list) && n <= |list|
    ensures FromList(key, list[..n]) == list[..n]
  {
    if n == 0 {
      assert list[..n] == [];
    } else {
      FromDistinctList(key, list, n - 1);
      NewKey(key, list, n - 1);
      FromLonger(key, list, n - 1);
    }
  }

  /** The last assignment is never overwritten. */
  lemma {:induction false} LastIsKept<T(!new)>(key: T -> string, list: seq<T>)
    requires list != []
    ensures list[|list| - 1] in FromList(key, list)
  {
  }

  // ---- where keys stand ---------------------------------------------------

  lemma {:induction false} PutKeys<T(!new)>(key: T -> string, d: seq<T>, t: T)
    requires DistinctKeys(key, d)
    ensures var r := Put(key, d, t);
      && |d| <= |r| && (forall i :: 0 <= i < |d| ==> key(r[i]) == key(d[i]))
      && (|r| > |d| ==> |r| == |d| + 1 && r[|d|] == t && forall i :: 0 <= i < |d| ==> key(d[i]) != key(t))
  {
    if d != [] && key(d[0]) != key(t) {
      PutKeys(key, d[1..], t);
      var r := Put(key, d[1..], t);
      assert Put(key, d, t) == [d[0]] + r;
      forall i | 0 <= i < |d| ensures key(([d[0]] + r)[i]) == key(d[i]) {
        if i > 0 {
          assert key(r[i - 1]) == key(d[1..][i - 1]);
        }
      }
      if |r| > |d| - 1 {
        forall i | 0 <= i < |d| ensures key(d[i]) != key(t) {
          if i > 0 {
            assert d[1..][i - 1] == d[i];
          }
        }
      }
    }
  }

  lemma {:induction false} EveryKey<T(!new)>(key: T -> string, list: seq<T>, q: nat) returns (i: nat)
    requires q < |list|
    ensures i < |FromList(key, list)| && key(FromList(key, list)[i]) == key(list[q])
  {
    var k := |list| - 1;
    var d := FromList(key, list[..k]);
    var r := Put(key, d, list[k]);
    PutKeys(key, d, list[k]);
    if q == k {
      i :| 0 <= i < |r| && r[i] == list[k];
    } else {
      i := EveryKey(key, list[..k], q);
    }
  }

  lemma {:induction false} OneKeyOnePlace<T(!new)>(key: T -> string, d: seq<T>, i: nat, j: nat)
    requires DistinctKeys(key, d) && i < |d| && j < |d| && key(d[i]) == key(d[j])
    ensures i == j
  {
  }

  /** Keys stand in the order of their first assignments: before any assignment to a later key there is one
      to an earlier key. */
  lemma {:induction false} FirstAssignments<T(!new)>(key: T -> string, list: seq<T>, i: nat, j: nat, q: nat) returns (p: nat)
    requires i < j < |FromList(key, list)| && q < |list| && key(list[q]) == key(FromList(key, list)[j])
    ensures p < q && key(list[p]) == key(FromList(key, list)[i])
  {
    var k := |list| - 1;
    var init, d := list[..k], FromList(key, list[..k]);
    PutKeys(key, d, list[k]);
    if q < k {
      var l := EveryKey(key, init, q);
      OneKeyOnePlace(key, FromList(key, list), l, j);
      p := FirstAssignments(key, init, i, j, q);
    } else {
      assert d[i] in init;
      p :| 0 <= p < |init| && init[p] == d[i];
    }
  }

  /** Each key holds its last assignment. */
  lemma {:induction false} LastAssignment<T(!new)>(key: T -> string, list: seq<T>, p: nat)
    requires p < |list| && forall q :: p < q < |list| ==> key(list[q]) != key(list[p])
    ensures list[p] in FromList(key, list)
  {
    var k := |list| - 1;
    if p < k {
      assert list[..k][p] == list[p];
      LastAssignment(key, list[..k], p);
    }
  }
}
