/** Directed graphs as the tools keep them: a dictionary from each node to the list of
    nodes it depends on.  Lists may repeat a node and a node may list itself. */
module Digraph {

  type Graph<T(==)> = map<T, seq<T>>

  ghost predicate Edge<T>(g: Graph<T>, a: T, b: T) {
    a in g && b in g[a]
  }

  /** Every dependency is itself a key. */
  ghost predicate Closed<T(!new)>(g: Graph<T>) {
    forall n, d :: Edge(g, n, d) ==> d in g
  }

  /** A nonempty sequence of nodes, each followed by one of its dependencies. */
  ghost predicate Walk<T>(g: Graph<T>, w: seq<T>) {
    |w| > 0 && forall i :: 0 <= i < |w| - 1 ==> Edge(g, w[i], w[i + 1])
  }

  ghost predicate WalkFromTo<T>(g: Graph<T>, w: seq<T>, a: T, b: T) {
    Walk(g, w) && w[0] == a && w[|w| - 1] == b
  }

  /** Reachability in zero or more steps. */
  ghost predicate Reaches<T(!new)>(g: Graph<T>, a: T, b: T) {
    exists w :: WalkFromTo(g, w, a, b)
  }

  ghost predicate IsCycle<T>(g: Graph<T>, w: seq<T>) {
    Walk(g, w) && |w| >= 2 && w[0] == w[|w| - 1]
  }

  ghost predicate Acyclic<T(!new)>(g: Graph<T>) {
    forall w :: !IsCycle(g, w)
  }

  predicate Distinct<T(==)>(s: seq<T>) {
    forall i, j :: 0 <= i < j < |s| ==> s[i] != s[j]
  }

  /** `order` lists every key once, each key after all its dependencies. */
  ghost predicate TopologicalOrder<T(!new)>(g: Graph<T>, order: seq<T>) {
    && Distinct(order)
    && (forall n :: n in order <==> n in g)
    && (forall i, d :: 0 <= i < |order| && Edge(g, order[i], d) ==> d in order[..i])
  }

  // ---- reachability -------------------------------------------------------

  lemma {:induction false} ReachesSelf<T(!new)>(g: Graph<T>, a: T)
    ensures Reaches(g, a, a)
  {
    assert WalkFromTo(g, [a], a, a);
  }

  lemma {:induction false} ReachesStep<T(!new)>(g: Graph<T>, a: T, b: T, c: T)
    requires Edge(g, a, b) && Reaches(g, b, c)
    ensures Reaches(g, a, c)
  {
    var w :| WalkFromTo(g, w, b, c);
    var v := [a] + w;
    forall i | 0 <= i < |v| - 1 ensures Edge(g, v[i], v[i + 1]) {
      assert i > 0 ==> Edge(g, w[i - 1], w[i]);
    }
    assert WalkFromTo(g, v, a, c);
  }

  /** Reaching anything else starts with an edge. */
  lemma {:induction false} ReachesUnfold<T(!new)>(g: Graph<T>, a: T, c: T) returns (b: T)
    requires Reaches(g, a, c) && a != c
    ensures Edge(g, a, b) && Reaches(g, b, c)
  {
    var w :| WalkFromTo(g, w, a, c);
    b := w[1];
    assert Edge(g, w[0], w[1]);
    var v := w[1..];
    forall i | 0 <= i < |v| - 1 ensures Edge(g, v[i], v[i + 1]) {
      assert Edge(g, w[i + 1], w[i + 2]);
    }
    assert WalkFromTo(g, v, b, c);
  }

  // ---- acyclicity ---------------------------------------------------------

  /** A rank that drops along every edge drops along every walk. */
  lemma {:induction false} RankDropsAlongWalk<T(!new)>(g: Graph<T>, rank: T -> int, w: seq<T>)
    requires forall a, b :: Edge(g, a, b) ==> rank(b) < rank(a)
    requires Walk(g, w)
    ensures |w| >= 2 ==> rank(w[|w| - 1]) < rank(w[0])
  {
    if |w| >= 2 {
      assert Edge(g, w[0], w[1]);
      var v := w[1..];
      forall i | 0 <= i < |v| - 1 ensures Edge(g, v[i], v[i + 1]) {
        assert Edge(g, w[i + 1], w[i + 2]);
      }
      RankDropsAlongWalk(g, rank, v);
    }
  }

  lemma {:induction false} RankedIsAcyclic<T(!new)>(g: Graph<T>, rank: T -> int)
    requires forall a, b :: Edge(g, a, b) ==> rank(b) < rank(a)
    ensures Acyclic(g)
  {
    forall w | IsCycle(g, w) ensures false {
      RankDropsAlongWalk(g, rank, w);
    }
  }

  /** Where `x` first stands in `order`, or -1. */
  function Index<T(==)>(order: seq<T>, x: T): (k: int)
    ensures x in order ==> 0 <= k < |order| && order[k] == x && x !in order[..k]
    ensures x !in order ==> k == -1
  {
    if order == [] then -1
    else if order[0] == x then 0
    else
      var k := Index(order[1..], x);
      assert x in order ==> order[..k + 1] == [order[0]] + order[1..][..k];
      if k < 0 then -1 else k + 1
  }

  lemma {:induction false} TopologicalOrderIsAcyclic<T(!new)>(g: Graph<T>, order: seq<T>)
    requires TopologicalOrder(g, order)
    ensures Acyclic(g)
  {
    var rank := (x: T) => Index(order, x);
    forall a, b | Edge(g, a, b) ensures rank(b) < rank(a) {
      var i := Index(order, a);
      assert Edge(g, order[i], b);
      assert b in order[..i];
    }
    RankedIsAcyclic(g, rank);
  }

  ghost predicate HasDependentIn<T(!new)>(g: Graph<T>, s: set<T>, y: T) {
    exists p :: p in s && Edge(g, p, y)
  }

  /** Every node of `s` is a dependency of some node of `s`. */
  ghost predicate Stuck<T(!new)>(g: Graph<T>, s: set<T>) {
    forall y {:trigger HasDependentIn(g, s, y)} :: y in s ==> HasDependentIn(g, s, y)
  }

  /** `k` steps backwards inside a stuck set. */
  lemma {:induction false} WalkBackwards<T(!new)>(g: Graph<T>, s: set<T>, x: T, k: nat) returns (w: seq<T>)
    requires x in s
    requires Stuck(g, s)
    ensures Walk(g, w) && |w| == k + 1 && w[k] == x
    ensures forall y :: y in w ==> y in s
  {
    if k == 0 {
      w := [x];
    } else {
      assert HasDependentIn(g, s, x);
      var p :| p in s && Edge(g, p, x);
      var v := WalkBackwards(g, s, p, k - 1);
      w := v + [x];
      forall i | 0 <= i < |w| - 1 ensures Edge(g, w[i], w[i + 1]) {
        assert i < k - 1 ==> Edge(g, v[i], v[i + 1]);
      }
    }
  }

  lemma {:induction false} DistinctIsSmall<T>(w: seq<T>, s: set<T>)
    requires Distinct(w) && forall y :: y in w ==> y in s
    ensures |w| <= |s|
  {
    if w != [] {
      var k := |w| - 1;
      forall y | y in w[..k] ensures y in s - {w[k]} {
        var i :| 0 <= i < k && w[i] == y;
      }
      DistinctIsSmall(w[..k], s - {w[k]});
    }
  }

  /** A nonempty stuck set contains a cycle. */
  lemma {:induction false} StuckSetHasCycle<T(!new)>(g: Graph<T>, s: set<T>)
    requires s != {}
    requires Stuck(g, s)
    ensures !Acyclic(g)
  {
    var x :| x in s;
    var w := WalkBackwards(g, s, x, |s|);
    if Distinct(w) {
      DistinctIsSmall(w, s);
    }
    var i, j :| 0 <= i < j < |w| && w[i] == w[j];
    var c := w[i..j + 1];
    forall k | 0 <= k < |c| - 1 ensures Edge(g, c[k], c[k + 1]) {
      assert Edge(g, w[i + k], w[i + k + 1]);
    }
    assert IsCycle(g, c);
  }

  // ---- closures -----------------------------------------------------------

  /** The keys reachable from `a`, `a` included when it is a key. */
  ghost function ReachSet<T(!new)>(g: Graph<T>, a: T): set<T> {
    set u | u in g && Reaches(g, a, u)
  }

  /** Every node reachable from `a` is a key. */
  ghost predicate Resolvable<T(!new)>(g: Graph<T>, a: T) {
    forall u :: Reaches(g, a, u) ==> u in g
  }

  /** In an acyclic graph the closure shrinks along every edge, which is why a depth-first walk ends. */
  lemma {:induction false} ReachSetShrinks<T(!new)>(g: Graph<T>, a: T, b: T)
    requires Acyclic(g) && Edge(g, a, b)
    ensures ReachSet(g, b) < ReachSet(g, a) && a !in ReachSet(g, b)
    ensures |ReachSet(g, b)| < |ReachSet(g, a)|
  {
    forall u | u in ReachSet(g, b) ensures u in ReachSet(g, a) {
      ReachesStep(g, a, b, u);
    }
    ReachesSelf(g, a);
    if a in ReachSet(g, b) {
      var w :| WalkFromTo(g, w, b, a);
      var c := [a] + w;
      forall i | 0 <= i < |c| - 1 ensures Edge(g, c[i], c[i + 1]) {
        assert i > 0 ==> Edge(g, w[i - 1], w[i - 1 + 1]);
      }
      assert IsCycle(g, c);
    }
    SmallerSet(ReachSet(g, b), ReachSet(g, a));
  }

  lemma {:induction false} SmallerSet<T>(s: set<T>, t: set<T>)
    requires s < t
    ensures |s| < |t|
  {
    assert t == s + (t - s);
    var x :| x in t && x !in s;
    assert x in t - s;
  }

  lemma {:induction false} ClosedIsResolvable<T(!new)>(g: Graph<T>, a: T)
    requires Closed(g) && a in g
    ensures Resolvable(g, a)
  {
    forall u | Reaches(g, a, u) ensures u in g {
      var w :| WalkFromTo(g, w, a, u);
      if |w| >= 2 {
        assert Edge(g, w[|w| - 2], w[|w| - 2 + 1]);
      }
    }
  }

  // ---- the part of a graph that matters -----------------------------------

  /** No cycle can be reached from `a`. */
  ghost predicate AcyclicFrom<T(!new)>(g: Graph<T>, a: T) {
    forall w :: IsCycle(g, w) ==> !Reaches(g, a, w[0])
  }

  /** The keys reachable from `a` with their dependencies. */
  ghost function Part<T(!new)>(g: Graph<T>, a: T): Graph<T> {
    map u | u in g && Reaches(g, a, u) :: g[u]
  }

  lemma {:induction false} ReachesNext<T(!new)>(g: Graph<T>, a: T, b: T, c: T)
    requires Reaches(g, a, b) && Edge(g, b, c)
    ensures Reaches(g, a, c)
  {
    var w :| WalkFromTo(g, w, a, b);
    var v := w + [c];
    forall i | 0 <= i < |v| - 1 ensures Edge(g, v[i], v[i + 1]) {
      assert i < |w| - 1 ==> Edge(g, w[i], w[i + 1]);
    }
    assert WalkFromTo(g, v, a, c);
  }

  lemma {:induction false} PartEdge<T(!new)>(g: Graph<T>, a: T, u: T, v: T)
    ensures Edge(Part(g, a), u, v) <==> Edge(g, u, v) && Reaches(g, a, u)
  {
  }

  lemma {:induction false} WalkInPart<T(!new)>(g: Graph<T>, a: T, w: seq<T>)
    requires Walk(g, w) && Reaches(g, a, w[0])
    ensures Walk(Part(g, a), w)
  {
    if |w| > 1 {
      var v := w[1..];
      assert Edge(g, w[0], w[1]);
      forall i | 0 <= i < |v| - 1 ensures Edge(g, v[i], v[i + 1]) {
        assert Edge(g, w[i + 1], w[i + 2]);
      }
      ReachesNext(g, a, w[0], w[1]);
      WalkInPart(g, a, v);
      forall i | 0 <= i < |w| - 1 ensures Edge(Part(g, a), w[i], w[i + 1]) {
        assert i > 0 ==> Edge(Part(g, a), v[i - 1], v[i - 1 + 1]);
      }
    }
  }

  /** From what `a` reaches, the part reaches the same as the whole. */
  lemma {:induction false} PartReaches<T(!new)>(g: Graph<T>, a: T, u: T, v: T)
    requires Reaches(g, a, u)
    ensures Reaches(Part(g, a), u, v) <==> Reaches(g, u, v)
  {
    if Reaches(g, u, v) {
      var w :| WalkFromTo(g, w, u, v);
      WalkInPart(g, a, w);
      assert WalkFromTo(Part(g, a), w, u, v);
    }
    if Reaches(Part(g, a), u, v) {
      var w :| WalkFromTo(Part(g, a), w, u, v);
      forall i | 0 <= i < |w| - 1 ensures Edge(g, w[i], w[i + 1]) {
        assert Edge(Part(g, a), w[i], w[i + 1]);
      }
      assert WalkFromTo(g, w, u, v);
    }
  }

  lemma {:induction false} PartCycle<T(!new)>(g: Graph<T>, a: T, w: seq<T>)
    requires IsCycle(Part(g, a), w)
    ensures IsCycle(g, w) && Reaches(g, a, w[0])
  {
    assert Edge(Part(g, a), w[0], w[1]);
    forall i | 0 <= i < |w| - 1 ensures Edge(g, w[i], w[i + 1]) {
      assert Edge(Part(g, a), w[i], w[i + 1]);
    }
  }

  lemma {:induction false} PartIsAcyclic<T(!new)>(g: Graph<T>, a: T)
    requires AcyclicFrom(g, a)
    ensures Acyclic(Part(g, a))
  {
    forall w | IsCycle(Part(g, a), w) ensures false {
      PartCycle(g, a, w);
    }
  }

  lemma {:induction false} ReachesAll<T(!new)>(g: Graph<T>, a: T, b: T, c: T)
    requires Reaches(g, a, b) && Reaches(g, b, c)
    ensures Reaches(g, a, c)
  {
    var w :| WalkFromTo(g, w, b, c);
    ReachesAlong(g, a, w, |w| - 1);
  }

  lemma {:induction false} ReachesAlong<T(!new)>(g: Graph<T>, a: T, w: seq<T>, k: nat)
    requires Walk(g, w) && Reaches(g, a, w[0]) && k < |w|
    ensures Reaches(g, a, w[k])
  {
    if k > 0 {
      ReachesAlong(g, a, w, k - 1);
      assert Edge(g, w[k - 1], w[k - 1 + 1]);
      ReachesNext(g, a, w[k - 1], w[k]);
    }
  }

  lemma {:induction false} PartReachSet<T(!new)>(g: Graph<T>, a: T, u: T)
    requires Reaches(g, a, u)
    ensures ReachSet(Part(g, a), u) == ReachSet(g, u)
  {
    forall v ensures v in ReachSet(Part(g, a), u) <==> v in ReachSet(g, u) {
      PartReaches(g, a, u, v);
      if Reaches(g, u, v) {
        ReachesAll(g, a, u, v);
      }
    }
  }

  lemma {:induction false} PartResolvable<T(!new)>(g: Graph<T>, a: T)
    ensures Resolvable(Part(g, a), a) <==> Resolvable(g, a)
    ensures a in Part(g, a) <==> a in g
  {
    ReachesSelf(g, a);
    forall u ensures Reaches(Part(g, a), a, u) <==> Reaches(g, a, u) {
      PartReaches(g, a, a, u);
    }
  }

  // ---- how deep a walk can go ---------------------------------------------

  /** A depth-first descent from `a` never goes more than `n` edges deep. */
  ghost predicate DepthWithin<T(!new)>(g: Graph<T>, a: T, n: nat) {
    forall c :: Edge(g, a, c) ==> n > 0 && DepthWithin(g, c, n - 1)
  }

  lemma {:induction false} WalkTail<T>(g: Graph<T>, w: seq<T>)
    requires Walk(g, w) && |w| > 1
    ensures Edge(g, w[0], w[1]) && Walk(g, w[1..])
  {
    assert Edge(g, w[0], w[0 + 1]);
    var v := w[1..];
    forall i | 0 <= i < |v| - 1 ensures Edge(g, v[i], v[i + 1]) {
      assert Edge(g, w[i + 1], w[i + 1 + 1]);
    }
  }

  lemma {:induction false} WalkIsShort<T(!new)>(g: Graph<T>, w: seq<T>, n: nat)
    requires Walk(g, w) && DepthWithin(g, w[0], n)
    ensures |w| <= n + 1
  {
    if |w| > 1 {
      WalkTail(g, w);
      WalkIsShort(g, w[1..], n - 1);
    }
  }

  lemma {:induction false} WalksJoin<T>(g: Graph<T>, v: seq<T>, w: seq<T>)
    requires Walk(g, v) && Walk(g, w) && v[|v| - 1] == w[0]
    ensures Walk(g, v + w[1..]) && (v + w[1..])[0] == v[0]
  {
    var u := v + w[1..];
    forall i | 0 <= i < |u| - 1 ensures Edge(g, u[i], u[i + 1]) {
      assert i < |v| - 1 ==> Edge(g, v[i], v[i + 1]);
      assert i >= |v| - 1 ==> Edge(g, w[i - |v| + 1], w[i - |v| + 1 + 1]);
    }
  }

  /** Around a cycle walks go on for ever. */
  lemma {:induction false} CycleGoesOn<T>(g: Graph<T>, w: seq<T>, k: nat) returns (v: seq<T>)
    requires IsCycle(g, w)
    ensures Walk(g, v) && v[0] == w[0] && v[|v| - 1] == w[0] && |v| > k
  {
    if k == 0 {
      v := [w[0]];
    } else {
      var u := CycleGoesOn(g, w, k - 1);
      WalksJoin(g, u, w);
      v := u + w[1..];
    }
  }

  lemma {:induction false} CycleHasNoDepth<T(!new)>(g: Graph<T>, a: T, n: nat)
    requires DepthWithin(g, a, n)
    ensures AcyclicFrom(g, a)
  {
    forall w | IsCycle(g, w) && Reaches(g, a, w[0]) ensures false {
      var v :| WalkFromTo(g, v, a, w[0]);
      var u := CycleGoesOn(g, w, n + 1);
      WalksJoin(g, v, u);
      WalkIsShort(g, v + u[1..], n);
    }
  }

  lemma {:induction false} AcyclicHasDepth<T(!new)>(g: Graph<T>, a: T)
    requires Acyclic(g)
    ensures DepthWithin(g, a, |ReachSet(g, a)|)
    decreases |ReachSet(g, a)|
  {
    forall c | Edge(g, a, c) ensures |ReachSet(g, a)| > 0 && DepthWithin(g, c, |ReachSet(g, a)| - 1) {
      ReachSetShrinks(g, a, c);
      AcyclicHasDepth(g, c);
      DepthGrows(g, c, |ReachSet(g, c)|, |ReachSet(g, a)| - 1);
    }
  }

  lemma {:induction false} DepthGrows<T(!new)>(g: Graph<T>, a: T, n: nat, m: nat)
    requires DepthWithin(g, a, n) && n <= m
    ensures DepthWithin(g, a, m)
  {
    forall c | Edge(g, a, c) ensures m > 0 && DepthWithin(g, c, m - 1) {
      DepthGrows(g, c, n - 1, m - 1);
    }
  }

  lemma {:induction false} PartHasDepth<T(!new)>(g: Graph<T>, a: T, u: T, n: nat)
    requires Reaches(g, a, u) && DepthWithin(Part(g, a), u, n)
    ensures DepthWithin(g, u, n)
  {
    forall c | Edge(g, u, c) ensures n > 0 && DepthWithin(g, c, n - 1) {
      PartEdge(g, a, u, c);
      ReachesNext(g, a, u, c);
      PartHasDepth(g, a, c, n - 1);
    }
  }

  /** A descent has a deepest point exactly when it can reach no cycle. */
  lemma {:induction false} DepthIsBounded<T(!new)>(g: Graph<T>, a: T)
    ensures HasDepth(g, a) <==> AcyclicFrom(g, a)
  {
    if HasDepth(g, a) {
      var n: nat :| DepthWithin(g, a, n);
      CycleHasNoDepth(g, a, n);
    }
    if AcyclicFrom(g, a) {
      var n := |ReachSet(Part(g, a), a)|;
      PartIsAcyclic(g, a);
      AcyclicHasDepth(Part(g, a), a);
      ReachesSelf(g, a);
      PartHasDepth(g, a, a, n);
      assert DepthWithin(g, a, n);
    }
  }

  ghost predicate HasDepth<T(!new)>(g: Graph<T>, a: T) {
    exists n: nat :: DepthWithin(g, a, n)
  }

  // ---- graphs that agree --------------------------------------------------

  lemma {:induction false} AcyclicIsAcyclicFrom<T(!new)>(g: Graph<T>, a: T)
    requires Acyclic(g)
    ensures AcyclicFrom(g, a)
  {
  }

  /** Reaching anything else ends with an edge. */
  lemma {:induction false} ReachesLast<T(!new)>(g: Graph<T>, a: T, c: T) returns (b: T)
    requires Reaches(g, a, c) && a != c
    ensures Edge(g, b, c)
  {
    var w :| WalkFromTo(g, w, a, c);
    b := w[|w| - 2];
    assert Edge(g, w[|w| - 2], w[|w| - 2 + 1]);
  }

  lemma {:induction false} SameWalk<T(!new)>(g: Graph<T>, h: Graph<T>, a: T, w: seq<T>)
    requires forall u, v :: Reaches(g, a, u) ==> (Edge(g, u, v) <==> Edge(h, u, v))
    requires Walk(h, w) && Reaches(g, a, w[0])
    ensures Walk(g, w)
  {
    if |w| > 1 {
      WalkTail(h, w);
      ReachesNext(g, a, w[0], w[1]);
      SameWalk(g, h, a, w[1..]);
      forall i | 0 <= i < |w| - 1 ensures Edge(g, w[i], w[i + 1]) {
        assert i > 0 ==> Edge(g, w[1..][i - 1], w[1..][i - 1 + 1]);
      }
    }
  }

  /** Graphs that agree on the edges of what `a` reaches agree on what that reaches. */
  lemma {:induction false} SameReach<T(!new)>(g: Graph<T>, h: Graph<T>, a: T, u: T, v: T)
    requires forall x, y :: Reaches(g, a, x) ==> (Edge(g, x, y) <==> Edge(h, x, y))
    requires Reaches(g, a, u)
    ensures Reaches(g, u, v) <==> Reaches(h, u, v)
  {
    if Reaches(h, u, v) {
      var w :| WalkFromTo(h, w, u, v);
      SameWalk(g, h, a, w);
      assert WalkFromTo(g, w, u, v);
    }
    if Reaches(g, u, v) {
      var w :| WalkFromTo(g, w, u, v);
      forall i | 0 <= i < |w| - 1 ensures Edge(h, w[i], w[i + 1]) {
        assert Edge(g, w[i], w[i + 1]);
        ReachesAlong(g, a, w, i);
      }
      assert WalkFromTo(h, w, u, v);
    }
  }

  // ---- renamed graphs -----------------------------------------------------

  function Renamed<T, U>(f: T -> U, s: seq<T>): (r: seq<U>)
    ensures |r| == |s| && forall i :: 0 <= i < |s| ==> r[i] == f(s[i])
  {
    seq(|s|, i requires 0 <= i < |s| => f(s[i]))
  }

  lemma {:induction false} RenamedMember<T, U>(f: T -> U, s: seq<T>, y: U) returns (x: T)
    requires y in Renamed(f, s)
    ensures x in s && f(x) == y
  {
    var i :| 0 <= i < |s| && Renamed(f, s)[i] == y;
    x := s[i];
  }

  lemma {:induction false} RenamedHas<T, U>(f: T -> U, s: seq<T>, x: T)
    requires x in s
    ensures f(x) in Renamed(f, s)
  {
    var i :| 0 <= i < |s| && s[i] == x;
    assert Renamed(f, s)[i] == f(x);
  }

  ghost predicate HasPreimage<T(!new), U>(g: Graph<T>, f: T -> U, y: U) {
    exists x :: x in g && f(x) == y
  }

  /** `h` is `g` with every node renamed. */
  ghost predicate IsRenaming<T(!new), U(!new)>(g: Graph<T>, h: Graph<U>, f: T -> U) {
    && (forall x :: x in g ==> f(x) in h && h[f(x)] == Renamed(f, g[x]))
    && (forall y :: y in h ==> HasPreimage(g, f, y))
  }

  /** Nothing that is a key, or that a key depends on, takes the new name of another key. */
  ghost predicate TellsApart<T(!new), U>(g: Graph<T>, f: T -> U) {
    && (forall x, y :: x in g && y in g && f(x) == f(y) ==> x == y)
    && (forall a, d, y :: Edge(g, a, d) && y in g && f(d) == f(y) ==> d == y)
  }

  lemma {:induction false} RenamedEdge<T(!new), U(!new)>(g: Graph<T>, h: Graph<U>, f: T -> U, a: T, d: T)
    requires IsRenaming(g, h, f) && Edge(g, a, d)
    ensures Edge(h, f(a), f(d))
  {
    RenamedHas(f, g[a], d);
  }

  lemma {:induction false} EdgeBack<T(!new), U(!new)>(g: Graph<T>, h: Graph<U>, f: T -> U, x: T, z: U) returns (d: T)
    requires IsRenaming(g, h, f) && x in g && Edge(h, f(x), z)
    ensures Edge(g, x, d) && f(d) == z
  {
    d := RenamedMember(f, g[x], z);
  }

  lemma {:induction false} RenamedClosed<T(!new), U(!new)>(g: Graph<T>, h: Graph<U>, f: T -> U)
    requires IsRenaming(g, h, f) && TellsApart(g, f)
    ensures Closed(h) <==> Closed(g)
  {
    if Closed(g) {
      forall y, z | Edge(h, y, z) ensures z in h {
        assert HasPreimage(g, f, y);
        var x :| x in g && f(x) == y;
        var d := EdgeBack(g, h, f, x, z);
      }
    }
    if Closed(h) {
      forall a, d | Edge(g, a, d) ensures d in g {
        RenamedEdge(g, h, f, a, d);
        assert HasPreimage(g, f, f(d));
        var x :| x in g && f(x) == f(d);
      }
    }
  }

  lemma {:induction false} CycleForth<T(!new), U(!new)>(g: Graph<T>, h: Graph<U>, f: T -> U, w: seq<T>)
    requires IsRenaming(g, h, f) && IsCycle(g, w)
    ensures IsCycle(h, Renamed(f, w))
  {
    var v := Renamed(f, w);
    forall i | 0 <= i < |v| - 1 ensures Edge(h, v[i], v[i + 1]) {
      assert Edge(g, w[i], w[i + 1]);
      RenamedEdge(g, h, f, w[i], w[i + 1]);
    }
  }

  /** A walk among keys, renamed back. */
  lemma {:induction false} WalkBack<T(!new), U(!new)>(g: Graph<T>, h: Graph<U>, f: T -> U, v: seq<U>) returns (w: seq<T>)
    requires IsRenaming(g, h, f) && TellsApart(g, f) && Walk(h, v) && v[|v| - 1] in h
    ensures Walk(g, w) && |w| == |v| && w[0] in g && f(w[0]) == v[0] && w[|w| - 1] in g && f(w[|w| - 1]) == v[|v| - 1]
    decreases |v|
  {
    assert v[0] in h by {
      if |v| > 1 {
        assert Edge(h, v[0], v[0 + 1]);
      }
    }
    assert HasPreimage(g, f, v[0]);
    var x :| x in g && f(x) == v[0];
    if |v| == 1 {
      w := [x];
    } else {
      WalkTail(h, v);
      var u := WalkBack(g, h, f, v[1..]);
      var d := EdgeBack(g, h, f, x, v[1]);
      assert d == u[0];
      w := [x] + u;
      forall i | 0 <= i < |w| - 1 ensures Edge(g, w[i], w[i + 1]) {
        assert i > 0 ==> Edge(g, u[i - 1], u[i - 1 + 1]);
      }
    }
  }

  lemma {:induction false} CycleBack<T(!new), U(!new)>(g: Graph<T>, h: Graph<U>, f: T -> U, v: seq<U>) returns (w: seq<T>)
    requires IsRenaming(g, h, f) && TellsApart(g, f) && IsCycle(h, v)
    ensures IsCycle(g, w)
  {
    assert Edge(h, v[0], v[0 + 1]);
    w := WalkBack(g, h, f, v);
  }

  lemma {:induction false} RenamedAcyclic<T(!new), U(!new)>(g: Graph<T>, h: Graph<U>, f: T -> U)
    requires IsRenaming(g, h, f) && TellsApart(g, f)
    ensures Acyclic(h) <==> Acyclic(g)
  {
    if w :| IsCycle(g, w) {
      CycleForth(g, h, f, w);
    }
    if v :| IsCycle(h, v) {
      var w := CycleBack(g, h, f, v);
    }
  }

  /** The first `n` keys renamed. */
  ghost predicate RenamedUpTo<T, U(!new)>(g: Graph<T>, keys: seq<T>, f: T -> U, n: nat, names: seq<U>, h: Graph<U>) {
    && n == |names| <= |keys| && (forall i :: 0 <= i < n ==> names[i] == f(keys[i]))
    && (forall i :: 0 <= i < n ==> keys[i] in g && names[i] in h && h[names[i]] == Renamed(f, g[keys[i]]))
    && (forall y :: y in h <==> y in names)
  }

  lemma {:induction false} RenameNext<T(!new), U(!new)>(g: Graph<T>, keys: seq<T>, f: T -> U, n: nat, names: seq<U>, h: Graph<U>)
    requires RenamedUpTo(g, keys, f, n, names, h) && n < |keys| && keys[n] in g && Distinct(names) && Distinct(keys)
    requires forall x, y :: x in g && y in g && f(x) == f(y) ==> x == y
    ensures RenamedUpTo(g, keys, f, n + 1, names + [f(keys[n])], h[f(keys[n]) := Renamed(f, g[keys[n]])]) && Distinct(names + [f(keys[n])])
  {
    forall i | 0 <= i < n ensures names[i] != f(keys[n]) {
      assert keys[i] != keys[n];
    }
  }

  lemma {:induction false} RenamedWhole<T(!new), U(!new)>(g: Graph<T>, keys: seq<T>, f: T -> U, names: seq<U>, h: Graph<U>)
    requires RenamedUpTo(g, keys, f, |keys|, names, h) && forall x :: x in keys <==> x in g
    ensures IsRenaming(g, h, f)
  {
    forall x | x in g ensures f(x) in h && h[f(x)] == Renamed(f, g[x]) {
      var i :| 0 <= i < |keys| && keys[i] == x;
      assert names[i] == f(x);
    }
    forall y | y in h ensures HasPreimage(g, f, y) {
      var i :| 0 <= i < |names| && names[i] == y;
      assert keys[i] in g && f(keys[i]) == y;
    }
  }

  /** Renames the keys of a dictionary and what they depend on. */
  method Rename<T(==, !new), U(==, !new)>(keys: seq<T>, g: Graph<T>, f: T -> U) returns (names: seq<U>, h: Graph<U>)
    requires Distinct(keys) && forall x :: x in keys <==> x in g
    requires forall x, y :: x in g && y in g && f(x) == f(y) ==> x == y
    ensures IsRenaming(g, h, f) && Distinct(names) && forall y :: y in names <==> y in h
  {
    names, h := [], map[];
    for n := 0 to |keys|
      invariant RenamedUpTo(g, keys, f, n, names, h) && Distinct(names)
    {
      assert keys[n] in keys;
      RenameNext(g, keys, f, n, names, h);
      names, h := names + [f(keys[n])], h[f(keys[n]) := Renamed(f, g[keys[n]])];
    }
    RenamedWhole(g, keys, f, names, h);
  }
}
