/** The sort that orders library targets so that each follows its dependencies. */
module TopologicalSort {
  import opened Digraph

  datatype SortResult<T> =
    | Sorted(order: seq<T>)
    | CycleDetected
    | UnknownKey(key: T)

  // ---- counting edges -----------------------------------------------------

  function Count<T(==)>(s: seq<T>, x: T): nat {
    if s == [] then 0 else Count(s[..|s| - 1], x) + if s[|s| - 1] == x then 1 else 0
  }

  /** How many edges lead from the nodes of `from` into `x`, repeated edges counted apart. */
  function EdgesInto<T(==)>(g: Graph<T>, from: seq<T>, x: T): nat
    requires forall n :: n in from ==> n in g
  {
    if from == [] then 0
    else EdgesInto(g, from[..|from| - 1], x) + Count(g[from[|from| - 1]], x)
  }

  lemma {:induction false} CountPositive<T>(s: seq<T>, x: T)
    ensures Count(s, x) > 0 <==> x in s
  {
    if s != [] {
      CountPositive(s[..|s| - 1], x);
      assert s == s[..|s| - 1] + [s[|s| - 1]];
    }
  }

  lemma {:induction false} EdgesIntoWithout<T>(g: Graph<T>, from: seq<T>, k: nat, x: T)
    requires k < |from| && forall n :: n in from ==> n in g
    ensures EdgesInto(g, from, x) == EdgesInto(g, from[..k] + from[k + 1..], x) + Count(g[from[k]], x)
  {
    var last := |from| - 1;
    if k == last {
      assert from[..k] + from[k + 1..] == from[..last];
    } else {
      EdgesIntoWithout(g, from[..last], k, x);
      var rest := from[..k] + from[k + 1..];
      assert from[..last][..k] + from[..last][k + 1..] == rest[..|rest| - 1];
    }
  }

  /** Distinct nodes that all occur in `whole`, where they matter to `x`, carry no more edges than `whole`. */
  lemma {:induction false} EdgesIntoPart<T>(g: Graph<T>, part: seq<T>, whole: seq<T>, x: T)
    requires Distinct(part) && Distinct(whole)
    requires forall n :: n in part || n in whole ==> n in g
    requires forall n :: n in part && x in g[n] ==> n in whole
    ensures EdgesInto(g, part, x) <= EdgesInto(g, whole, x)
  {
    if part != [] {
      var rest, n := part[..|part| - 1], part[|part| - 1];
      CountPositive(g[n], x);
      if x in g[n] {
        var k :| 0 <= k < |whole| && whole[k] == n;
        EdgesIntoWithout(g, whole, k, x);
        var others := whole[..k] + whole[k + 1..];
        forall m | m in rest && x in g[m] ensures m in others {
          var j :| 0 <= j < |whole| && whole[j] == m;
          assert j < k ==> others[j] == m;
          assert j > k ==> others[j - 1] == m;
        }
        EdgesIntoPart(g, rest, others, x);
      } else {
        EdgesIntoPart(g, rest, whole, x);
      }
    }
  }

  /** Two lists carry the same edges into `x` only if they agree on who depends on `x`. */
  lemma {:induction false} SameCountSameDependents<T>(g: Graph<T>, part: seq<T>, whole: seq<T>, x: T, n: T)
    requires Distinct(part) && Distinct(whole)
    requires forall m :: m in part ==> m in whole
    requires forall m :: m in whole ==> m in g
    requires EdgesInto(g, part, x) == EdgesInto(g, whole, x)
    requires n in whole && x in g[n]
    ensures n in part
  {
    if n !in part {
      var more := part + [n];
      assert more[..|more| - 1] == part;
      CountPositive(g[n], x);
      EdgesIntoPart(g, more, whole, x);
    }
  }

  // ---- the algorithm ------------------------------------------------------

  /** The keys already taken are in dependents-first order. */
  ghost predicate DependentsFirst<T(!new)>(g: Graph<T>, done: seq<T>) {
    forall i, n :: 0 <= i < |done| && Edge(g, n, done[i]) ==> n in done[..i]
  }

  ghost predicate Tally<T(!new)>(g: Graph<T>, keys: seq<T>, indegree: map<T, nat>, done: seq<T>)
    requires forall n :: n in keys || n in done ==> n in g
  {
    && indegree.Keys == g.Keys
    && forall x {:trigger indegree[x]} :: x in g ==> indegree[x] + EdgesInto(g, done, x) == EdgesInto(g, keys, x)
  }

  lemma {:induction false} CountWithin<T>(s: seq<T>, k: nat, x: T)
    requires k <= |s|
    ensures Count(s[..k], x) <= Count(s, x)
    decreases |s| - k
  {
    if k < |s| {
      assert s[..k + 1][..k] == s[..k];
      CountWithin(s, k + 1, x);
    } else {
      assert s[..k] == s;
    }
  }

  /** Adds one for every entry of `deps`; stops at an entry that is not a key. */
  method CountEntries<T(==, !new)>(deps: seq<T>, indegree: map<T, nat>) returns (unknown: seq<T>, indegree': map<T, nat>)
    ensures unknown == [] <==> forall d :: d in deps ==> d in indegree
    ensures forall d :: d in unknown ==> d !in indegree
    ensures indegree'.Keys == indegree.Keys
    ensures unknown == [] ==> forall x :: x in indegree ==> indegree'[x] == indegree[x] + Count(deps, x)
  {
    indegree' := indegree;
    for j := 0 to |deps|
      invariant indegree'.Keys == indegree.Keys
      invariant forall d :: d in deps[..j] ==> d in indegree
      invariant forall x :: x in indegree ==> indegree'[x] == indegree[x] + Count(deps[..j], x)
    {
      assert deps[..j + 1][..j] == deps[..j];
      if deps[j] !in indegree' {
        return [deps[j]], indegree';
      }
      indegree' := indegree'[deps[j] := indegree'[deps[j]] + 1];
    }
    assert deps[..|deps|] == deps;
    unknown := [];
  }

  /** Counts, for every key, the edges that lead into it. */
  method CountIndegrees<T(==, !new)>(keys: seq<T>, g: Graph<T>) returns (unknown: seq<T>, indegree: map<T, nat>)
    requires Distinct(keys) && forall n :: n in keys <==> n in g
    ensures unknown == [] <==> Closed(g)
    ensures forall d :: d in unknown ==> d !in g
    ensures unknown == [] ==> Tally(g, keys, indegree, [])
  {
    indegree := map n | n in g :: 0;
    for i := 0 to |keys|
      invariant indegree.Keys == g.Keys
      invariant forall x :: x in g ==> indegree[x] == EdgesInto(g, keys[..i], x)
      invariant forall n, d :: n in keys[..i] && d in g[n] ==> d in g
    {
      assert keys[..i + 1][..i] == keys[..i];
      unknown, indegree := CountEntries(g[keys[i]], indegree);
      if unknown != [] {
        ghost var d :| d in g[keys[i]] && d !in g;
        assert Edge(g, keys[i], d);
        return;
      }
    }
    assert keys[..|keys|] == keys;
    unknown := [];
  }

  /** Takes one away for every entry of `deps`; a key whose count reaches zero joins the queue. */
  method Release<T(==, !new)>(deps: seq<T>, indegree: map<T, nat>, queue: seq<T>)
      returns (indegree': map<T, nat>, queue': seq<T>, ghost freed: seq<T>)
    requires forall x :: x in deps ==> x in indegree
    requires forall x :: x in indegree ==> Count(deps, x) <= indegree[x]
    ensures indegree'.Keys == indegree.Keys
    ensures forall x :: x in indegree ==> indegree'[x] == indegree[x] - Count(deps, x)
    ensures queue' == queue + freed && Distinct(freed)
    ensures forall x :: x in freed <==> x in indegree && indegree[x] > 0 && indegree'[x] == 0
  {
    indegree', queue', freed := indegree, queue, [];
    for j := 0 to |deps|
      invariant indegree'.Keys == indegree.Keys
      invariant forall x :: x in indegree ==> indegree'[x] == indegree[x] - Count(deps[..j], x)
      invariant queue' == queue + freed && Distinct(freed)
      invariant forall x :: x in freed <==> x in indegree && indegree[x] > 0 && indegree'[x] == 0
    {
      var dep := deps[j];
      assert deps[..j + 1][..j] == deps[..j];
      CountWithin(deps, j + 1, dep);
      indegree' := indegree'[dep := indegree'[dep] - 1];
      if indegree'[dep] == 0 {
        queue', freed := queue' + [dep], freed + [dep];
      }
    }
    assert deps[..|deps|] == deps;
  }

  /** What the loop of `Sort` keeps: `done` then `queue` lists each key with count zero once. */
  ghost predicate Progress<T(!new)>(g: Graph<T>, keys: seq<T>, indegree: map<T, nat>, done: seq<T>, queue: seq<T>)
    requires forall n :: n in keys ==> n in g
  {
    && (forall n :: n in done ==> n in g)
    && Tally(g, keys, indegree, done)
    && Distinct(done + queue)
    && (forall x :: x in g && indegree[x] == 0 <==> x in done || x in queue)
    && DependentsFirst(g, done)
  }

  /** Taking the first key off the queue: all its dependents are done, and its edges are still counted. */
  lemma {:induction false} TakeFirst<T(!new)>(g: Graph<T>, keys: seq<T>, indegree: map<T, nat>, done: seq<T>, queue: seq<T>)
    requires Distinct(keys) && (forall n :: n in keys <==> n in g) && Closed(g)
    requires Progress(g, keys, indegree, done, queue) && queue != []
    ensures queue[0] in g && queue[0] !in done && |done| < |g|
    ensures Distinct(done + [queue[0]]) && DependentsFirst(g, done + [queue[0]])
    ensures forall x :: x in g ==> Count(g[queue[0]], x) <= indegree[x]
  {
    var lib := queue[0];
    var done' := done + [lib];
    assert done + queue == done' + queue[1..];
    DistinctPrefix(done, queue);
    DistinctPrefix(done', queue[1..]);
    DistinctIsSmall(done', g.Keys);
    forall n | Edge(g, n, lib) ensures n in done {
      assert lib in queue && indegree[lib] == 0;
      SameCountSameDependents(g, done, keys, lib, n);
    }
    forall x | x in g ensures Count(g[lib], x) <= indegree[x] {
      assert done'[..|done|] == done;
      EdgesIntoPart(g, done', keys, x);
    }
    forall i, n | 0 <= i < |done'| && Edge(g, n, done'[i]) ensures n in done'[..i] {
      assert done'[..i] == done[..i];
    }
  }

  lemma {:induction false} StepProgress<T(!new)>(g: Graph<T>, keys: seq<T>, indegree: map<T, nat>, done: seq<T>, queue: seq<T>,
                                          indegree': map<T, nat>, freed: seq<T>)
    requires Distinct(keys) && (forall n :: n in keys <==> n in g) && Closed(g)
    requires Progress(g, keys, indegree, done, queue) && queue != []
    requires indegree'.Keys == g.Keys && Distinct(freed)
    requires queue[0] in g && forall x :: x in g ==> indegree'[x] == indegree[x] - Count(g[queue[0]], x)
    requires forall x :: x in freed <==> x in g && indegree[x] > 0 && indegree'[x] == 0
    ensures Progress(g, keys, indegree', done + [queue[0]], queue[1..] + freed)
  {
    TakeFirst(g, keys, indegree, done, queue);
    var done' := done + [queue[0]];
    assert done'[..|done|] == done;
    assert queue == [queue[0]] + queue[1..];
    DistinctJoin(done + queue, freed);
    assert done' + (queue[1..] + freed) == done + queue + freed;
  }

  /** Kahn's algorithm over `keys`, the dictionary's keys in insertion order. */
  method Sort<T(==, !new)>(keys: seq<T>, g: Graph<T>) returns (r: SortResult<T>)
    requires Distinct(keys) && forall n :: n in keys <==> n in g
    ensures r.UnknownKey? <==> !Closed(g)
    ensures r.UnknownKey? ==> r.key !in g
    ensures r.Sorted? <==> Closed(g) && Acyclic(g)
    ensures r.Sorted? ==> TopologicalOrder(g, r.order)
  {
    var unknown, indegree := CountIndegrees(keys, g);
    if unknown != [] {
      return UnknownKey(unknown[0]);
    }
    var queue := InitialQueue(keys, g, indegree);
    var done := [];
    while queue != []
      invariant Progress(g, keys, indegree, done, queue)
      decreases |g| - |done|
    {
      var lib, rest := queue[0], queue[1..];
      TakeFirst(g, keys, indegree, done, queue);
      assert forall d :: d in g[lib] ==> Edge(g, lib, d);
      var indegree', queue', freed := Release(g[lib], indegree, rest);
      StepProgress(g, keys, indegree, done, queue, indegree', freed);
      done, indegree, queue := done + [lib], indegree', queue';
    }
    Finished(g, keys, indegree, done);
    r := if |done| == |keys| then Sorted(Reverse(done)) else CycleDetected;
  }

  /** Once the queue is empty, the number of keys taken tells whether there was a cycle. */
  lemma {:induction false} Finished<T(!new)>(g: Graph<T>, keys: seq<T>, indegree: map<T, nat>, done: seq<T>)
    requires Distinct(keys) && (forall n :: n in keys <==> n in g) && Closed(g)
    requires Progress(g, keys, indegree, done, [])
    ensures |done| == |keys| <==> Acyclic(g)
    ensures |done| == |keys| ==> TopologicalOrder(g, Reverse(done))
  {
    assert done + [] == done;
    if |done| == |keys| {
      ReverseOfDependentsFirst(g, keys, done);
      TopologicalOrderIsAcyclic(g, Reverse(done));
    } else {
      LeftOverIsCyclic(g, keys, indegree, done);
    }
  }

  /** Before anything is taken, the queue holds the keys nobody depends on. */
  method InitialQueue<T(==, !new)>(keys: seq<T>, g: Graph<T>, indegree: map<T, nat>) returns (queue: seq<T>)
    requires Distinct(keys) && forall n :: n in keys <==> n in g
    requires Tally(g, keys, indegree, [])
    ensures Progress(g, keys, indegree, [], queue)
  {
    queue := [];
    for i := 0 to |keys|
      invariant Distinct(queue) && forall n :: n in queue <==> n in keys[..i] && indegree[n] == 0
    {
      if indegree[keys[i]] == 0 {
        queue := queue + [keys[i]];
      }
    }
    assert keys[..|keys|] == keys;
    assert [] + queue == queue;
  }

  lemma {:induction false} DistinctPrefix<T>(a: seq<T>, b: seq<T>)
    requires Distinct(a + b)
    ensures Distinct(a) && forall x :: x in b ==> x !in a
  {
    forall i, j | 0 <= i < j < |a| ensures a[i] != a[j] {
      assert (a + b)[i] != (a + b)[j];
    }
    forall x | x in b ensures x !in a {
      var j :| 0 <= j < |b| && b[j] == x;
      assert (a + b)[|a| + j] == x;
      forall i | 0 <= i < |a| ensures a[i] != x {
        assert (a + b)[i] == a[i];
      }
    }
  }

  lemma {:induction false} DistinctJoin<T>(a: seq<T>, b: seq<T>)
    requires Distinct(a) && Distinct(b) && forall x :: x in b ==> x !in a
    ensures Distinct(a + b)
  {
    forall i, j | 0 <= i < j < |a + b| ensures (a + b)[i] != (a + b)[j] {
      if i < |a| <= j {
        assert b[j - |a|] in b;
      }
    }
  }

  function Reverse<T>(s: seq<T>): (r: seq<T>)
    ensures |r| == |s| && forall i :: 0 <= i < |s| ==> r[i] == s[|s| - 1 - i]
  {
    seq(|s|, i requires 0 <= i < |s| => s[|s| - 1 - i])
  }

  lemma {:induction false} ReverseOfDependentsFirst<T(!new)>(g: Graph<T>, keys: seq<T>, done: seq<T>)
    requires Distinct(keys) && (forall n :: n in keys <==> n in g) && Closed(g)
    requires Distinct(done) && (forall n :: n in done ==> n in g) && |done| == |keys|
    requires DependentsFirst(g, done)
    ensures TopologicalOrder(g, Reverse(done))
  {
    var r := Reverse(done);
    forall n | n in g ensures n in r {
      if n !in done {
        DistinctIsSmall(done, g.Keys - {n});
        KeysCount(keys, g.Keys);
      }
      var i :| 0 <= i < |done| && done[i] == n;
      assert r[|done| - 1 - i] == n;
    }
    forall i, d | 0 <= i < |r| && Edge(g, r[i], d) ensures d in r[..i] {
      assert d in r;
      var k :| 0 <= k < |r| && r[k] == d;
      var p := |done| - 1 - k;
      assert Edge(g, r[i], done[p]);
      var q :| 0 <= q < p && done[q] == r[i];
      assert q == |done| - 1 - i;
      assert r[..i][k] == d;
    }
  }

  lemma {:induction false} KeysCount<T>(keys: seq<T>, s: set<T>)
    requires Distinct(keys) && forall n :: n in keys <==> n in s
    ensures |keys| == |s|
  {
    if keys == [] {
      assert s == {};
    } else {
      var k := |keys| - 1;
      forall n ensures n in keys[..k] <==> n in s - {keys[k]} {
        if n in s - {keys[k]} {
          var i :| 0 <= i < |keys| && keys[i] == n;
          assert keys[..k][i] == n;
        }
      }
      KeysCount(keys[..k], s - {keys[k]});
    }
  }

  /** When the queue runs dry early, the keys left over hold a cycle. */
  lemma {:induction false} LeftOverIsCyclic<T(!new)>(g: Graph<T>, keys: seq<T>, indegree: map<T, nat>, done: seq<T>)
    requires Distinct(keys) && (forall n :: n in keys <==> n in g) && Closed(g)
    requires Distinct(done) && (forall n :: n in done ==> n in g) && |done| != |keys|
    requires Tally(g, keys, indegree, done)
    requires forall x :: x in g && indegree[x] == 0 ==> x in done
    ensures !Acyclic(g)
  {
    var left := set n | n in keys && n !in done;
    if left == {} {
      forall n ensures n in done <==> n in g.Keys {
        assert n in keys && n !in done ==> n in left;
      }
      KeysCount(done, g.Keys);
      KeysCount(keys, g.Keys);
    }
    forall y | y in left ensures HasDependentIn(g, left, y) {
      if !HasDependentIn(g, left, y) {
        forall n | n in keys && y in g[n] ensures n in done {
          assert Edge(g, n, y);
        }
        EdgesIntoPart(g, keys, done, y);
        assert false;
      }
    }
    StuckSetHasCycle(g, left);
  }
}
