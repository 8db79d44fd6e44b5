/** The recursive resolver that picks one version per interface for a compiler call. */
module DependencyResolver {
  import opened Basics
  import opened Digraph
  import opened Text
  import opened VersionStore
  import opened TargetNames
  import opened ImportRecords

  /** `Next` follows current import lists, `Frozen` follows recorded ones. */
  datatype Mode = Next | Frozen

  /** One run of the preprocessor: for which target, and which dependencies it was given. */
  datatype Preprocess = Preprocess(target: Target, given: map<string, nat>)

  // ---- the graphs the two modes walk --------------------------------------

  /** A current import that no loaded interface defines is looked up in vain; version 0 stands for it. */
  function NextTarget(s: Store, name: string): Target {
    Target(name, if name in s then NextVersion(s[name]) else 0)
  }

  function NextImports(s: Store, name: string): seq<Target>
    requires name in s
  {
    var imports := s[name].imports;
    seq(|imports|, i requires 0 <= i < |imports| => NextTarget(s, imports[i].name))
  }

  function NextGraph(s: Store): Graph<Target> {
    map t | t in (set n | n in s :: NextTarget(s, n)) :: NextImports(s, t.name)
  }

  /** In next mode an edge leads from the next version of an interface to the next version of each interface
      on its current import list, pinned or not. */
  lemma {:induction false} NextEdge(s: Store, t: Target, d: Target)
    ensures Edge(NextGraph(s), t, d) <==>
      && t.name in s && t.version == |s[t.name].versions| + 1
      && (exists i :: 0 <= i < |s[t.name].imports| && s[t.name].imports[i].name == d.name)
      && d.version == if d.name in s then |s[d.name].versions| + 1 else 0
  {
    if t.name in s && t.version == |s[t.name].versions| + 1 {
      assert t == NextTarget(s, t.name);
      assert t in NextGraph(s);
      if i :| 0 <= i < |s[t.name].imports| && s[t.name].imports[i].name == d.name {
        assert NextImports(s, t.name)[i] == NextTarget(s, d.name);
      }
    }
    if Edge(NextGraph(s), t, d) {
      var i :| 0 <= i < |NextImports(s, t.name)| && NextImports(s, t.name)[i] == d;
      assert s[t.name].imports[i].name == d.name;
    }
  }

  // ---- the accumulator ----------------------------------------------------

  /** The dependencies found so far, their insertion order, and the preprocessor runs made. */
  datatype Found = Found(deps: map<string, nat>, order: seq<string>, runs: seq<Preprocess>)

  /** `order` with the one occurrence of `name` taken out. */
  function Without(order: seq<string>, name: string): (r: seq<string>)
    ensures forall n :: n in r ==> n in order
    ensures Distinct(order) ==> Distinct(r) && forall n :: n in r <==> n in order && n != name
  {
    if order == [] then []
    else
      assert order == [order[0]] + order[1..];
      if order[0] == name then order[1..]
      else
        var r := Without(order[1..], name);
        assert forall j :: 0 <= j < |r| ==> r[j] in order[1..];
        [order[0]] + r
  }

  /** Keeps the newest version of each interface.  A newer version replaces the older entry, after
      the preprocessor has run for it with the other entries. */
  function Add(a: Found, t: Target): Found {
    if t.name in a.deps && a.deps[t.name] >= t.version then a
    else
      var others := a.deps - {t.name};
      Found(others[t.name := t.version], Without(a.order, t.name) + [t.name], a.runs + [Preprocess(t, others)])
  }

  /** Depth-first: what is below `t` first, then `t`; nothing if some target does not exist. */
  ghost function Visit(g: Graph<Target>, t: Target, a: Found): Option<Found>
    requires Acyclic(g)
    decreases |ReachSet(g, t)|, 1, 0
  {
    if t !in g then None
    else match VisitBelow(g, t, 0, a)
      case None => None
      case Some(b) => Some(Add(b, t))
  }

  /** Visits the imports of `t` from the `i`-th on. */
  ghost function VisitBelow(g: Graph<Target>, t: Target, i: nat, a: Found): Option<Found>
    requires Acyclic(g) && t in g && i <= |ImportDict(g[t])|
    decreases |ReachSet(g, t)|, 0, |ImportDict(g[t])| - i
  {
    var imports := ImportDict(g[t]);
    if i == |imports| then Some(a)
    else
      assert Edge(g, t, imports[i]);
      ReachSetShrinks(g, t, imports[i]);
      match Visit(g, imports[i], a)
      case None => None
      case Some(b) => VisitBelow(g, t, i + 1, b)
  }

  // ---- looking up imports -------------------------------------------------

  /** The imports of a version as a dictionary: the current ones, or the recorded ones as they are read. */
  function Lookup(s: Store, mode: Mode, t: Target): seq<Target>
    requires t.name in s && (mode == Next || t in FrozenTargets(s))
  {
    if mode == Next then ImportDict(NextImports(s, t.name)) else ReadImports(s, t)
  }

  lemma {:induction false} LookupIsAnswer(s: Store, mode: Mode, g: Graph<Target>, t: Target)
    requires t.name in s && Answers(mode, s, g, t) && t in g
    ensures (mode == Next || t in FrozenTargets(s)) && Lookup(s, mode, t) == ImportDict(g[t])
  {
    if mode == Frozen {
      assert g[t] == ReadImports(s, t);
      ReadImportsIsDict(s, t);
    }
  }

  // ---- the resolver -------------------------------------------------------

  class Resolver {
    /** The module-wide recursion depth. */
    var recCounter: nat
    /** The target being resolved. */
    var version: nat
    var interfaceName: string
    /** What has been found. */
    var found: Found

    constructor (name: string, version: nat)
      ensures recCounter == 0 && this.version == version && interfaceName == name
      ensures found == Found(map[], [], [])
    {
      this.recCounter, this.version, this.interfaceName := 0, version, name;
      this.found := Found(map[], [], []);
    }

    method AddDependency(name: string, version: nat)
      modifies `found
      ensures found == Add(old(found), Target(name, version))
    {
      var deps, order := found.deps, found.order;
      if name in deps {
        if deps[name] >= version {
          return;
        }
        deps := deps - {name};
      }
      order := Without(order, name);
      assert deps == found.deps - {name};
      found := Found(deps[name := version], order + [name], found.runs + [Preprocess(Target(name, version), deps)]);
    }

    /** Records every dependency of `name` at the current `version`, and the target itself unless
        this is the outermost call. */
    method ProcessImports(s: Store, mode: Mode, name: string, ghost g: Graph<Target>) returns (ok: bool)
      requires Walkable(mode, s, g) && name in s && Answers(mode, s, g, Target(name, version))
      modifies this
      decreases |ReachSet(g, Target(name, version))|, 1, 0
      ensures var t := Target(name, old(version));
        if old(recCounter) > 0 then
          && ok == Visit(g, t, old(found)).Some?
          && (ok ==> Some(found) == Visit(g, t, old(found)) && version == old(version) && interfaceName == name)
        else
          && ok == (t in g && VisitBelow(g, t, 0, old(found)).Some?)
          && (ok ==> Some(found) == VisitBelow(g, t, 0, old(found)))
      ensures ok ==> recCounter == old(recCounter)
    {
      ghost var t := Target(name, version);
      recCounter := recCounter + 1;
      var interfaceVersion := version;
      if !(mode == Next || Target(name, version) in FrozenTargets(s)) {
        return false;
      }
      LookupIsAnswer(s, mode, g, t);
      var imports := Lookup(s, mode, Target(name, version));
      ok := ProcessBelow(s, mode, imports, g, t);
      if !ok {
        return;
      }
      if recCounter != 1 {
        AddDependency(name, interfaceVersion);
        version := interfaceVersion;
        interfaceName := name;
      }
      recCounter := recCounter - 1;
    }

    /** The loop over the imports of one target. */
    method ProcessBelow(s: Store, mode: Mode, imports: seq<Target>, ghost g: Graph<Target>, ghost t: Target) returns (ok: bool)
      requires Walkable(mode, s, g) && recCounter > 0
      requires t in g && imports == ImportDict(g[t])
      modifies this
      decreases |ReachSet(g, t)|, 0, 0
      ensures ok == VisitBelow(g, t, 0, old(found)).Some?
      ensures ok ==> Some(found) == VisitBelow(g, t, 0, old(found)) && recCounter == old(recCounter)
    {
      for i := 0 to |imports|
        invariant recCounter == old(recCounter)
        invariant VisitBelow(g, t, 0, old(found)) == VisitBelow(g, t, i, found)
      {
        assert Edge(g, t, imports[i]);
        ReachSetShrinks(g, t, imports[i]);
        if imports[i].name !in s {
          return false;
        }
        version := imports[i].version;
        interfaceName := imports[i].name;
        ok := ProcessImports(s, mode, imports[i].name, g);
        if !ok {
          return;
        }
      }
      ok := true;
    }
  }

  /** `Next` is used for the next version of an interface, `Frozen` for every other. */
  predicate ModeOf(s: Store, t: Target, mode: Mode) {
    t.name in s && (mode == Next <==> t.version == NextVersion(s[t.name]))
  }

  /** `g` answers the lookup of `t` in this mode as the store does. */
  ghost predicate Answers(mode: Mode, s: Store, g: Graph<Target>, t: Target) {
    if t.name in s then
      && ModeOf(s, t, mode)
      && (t in g <==> mode == Next || t in FrozenTargets(s))
      && (t in g ==> g[t] == if mode == Next then NextImports(s, t.name) else ReadImports(s, t))
    else t !in g
  }

  /** `g` has no cycle, and answers every lookup the resolver makes on its way. */
  ghost predicate Walkable(mode: Mode, s: Store, g: Graph<Target>) {
    Acyclic(g) && forall a, t :: Edge(g, a, t) ==> Answers(mode, s, g, t)
  }

  lemma {:induction false} FrozenAnswers(s: Store, t: Target)
    requires t.name in s ==> t.version != NextVersion(s[t.name])
    ensures Answers(Frozen, s, ReadGraph(s), t)
  {
  }

  lemma {:induction false} NextAnswers(s: Store, t: Target)
    requires t == NextTarget(s, t.name)
    ensures Answers(Next, s, NextGraph(s), t)
  {
    assert forall n :: n in s ==> NextTarget(s, n).name == n;
  }

  /** The part of a graph that is reached answers as the whole does. */
  lemma {:induction false} PartIsWalkable(mode: Mode, s: Store, g: Graph<Target>, t: Target)
    requires AcyclicFrom(g, t) && Answers(mode, s, g, t) && forall a, c :: Edge(g, a, c) ==> Answers(mode, s, g, c)
    ensures Walkable(mode, s, Part(g, t)) && Answers(mode, s, Part(g, t), t)
  {
    PartIsAcyclic(g, t);
    ReachesSelf(g, t);
    forall a, c | Edge(Part(g, t), a, c) ensures Answers(mode, s, Part(g, t), c) {
      PartEdge(g, t, a, c);
      ReachesNext(g, t, a, c);
    }
  }

  lemma {:induction false} NextIsWalkable(s: Store, t: Target)
    requires t == NextTarget(s, t.name) && AcyclicFrom(NextGraph(s), t)
    ensures Walkable(Next, s, Part(NextGraph(s), t)) && Answers(Next, s, Part(NextGraph(s), t), t)
  {
    NextAnswers(s, t);
    forall a, c | Edge(NextGraph(s), a, c) ensures Answers(Next, s, NextGraph(s), c) {
      assert c == NextTarget(s, c.name);
      NextAnswers(s, c);
    }
    PartIsWalkable(Next, s, NextGraph(s), t);
  }

  // ---- what a visit finds -------------------------------------------------

  /** `after` holds, for each name, the largest of `before` and the versions in `seen`. */
  ghost predicate MaxMerge(before: map<string, nat>, seen: set<Target>, after: map<string, nat>) {
    && (forall n :: n in before ==> n in after && before[n] <= after[n])
    && (forall t :: t in seen ==> t.name in after && t.version <= after[t.name])
    && (forall n :: n in after ==> Target(n, after[n]) in seen || (n in before && after[n] == before[n]))
  }

  lemma {:induction false} MaxMergeJoins(a: map<string, nat>, s: set<Target>, b: map<string, nat>, t: set<Target>, c: map<string, nat>)
    requires MaxMerge(a, s, b) && MaxMerge(b, t, c)
    ensures MaxMerge(a, s + t, c)
  {
  }

  /** Merging determines the result. */
  lemma {:induction false} MaxMergeUnique(a: map<string, nat>, s: set<Target>, b: map<string, nat>, c: map<string, nat>)
    requires MaxMerge(a, s, b) && MaxMerge(a, s, c)
    ensures b == c
  {
    forall n | n in b ensures n in c && b[n] <= c[n] {
    }
    forall n | n in c ensures n in b && c[n] <= b[n] {
    }
  }

  /** A visit fails exactly when some reachable target does not exist. */
  lemma {:induction false} VisitSucceeds(g: Graph<Target>, t: Target, a: Found)
    requires Acyclic(g) && CoherentGraph(g)
    ensures Visit(g, t, a).Some? <==> Resolvable(g, t)
    ensures t in g ==> (VisitBelow(g, t, 0, a).Some? <==> Resolvable(g, t))
    decreases |ReachSet(g, t)|, 1, 0
  {
    if t in g {
      VisitBelowSucceeds(g, t, 0, a);
      ResolvableByChildren(g, t);
    } else {
      ReachesSelf(g, t);
    }
  }

  lemma {:induction false} VisitBelowSucceeds(g: Graph<Target>, t: Target, i: nat, a: Found)
    requires Acyclic(g) && CoherentGraph(g) && t in g && i <= |ImportDict(g[t])|
    ensures VisitBelow(g, t, i, a).Some? <==> ResolvableFrom(g, ImportDict(g[t]), i)
    decreases |ReachSet(g, t)|, 0, |ImportDict(g[t])| - i
  {
    var imports := ImportDict(g[t]);
    if i < |imports| {
      assert Edge(g, t, imports[i]);
      ReachSetShrinks(g, t, imports[i]);
      VisitSucceeds(g, imports[i], a);
      ResolvableStep(g, imports, i);
      if Visit(g, imports[i], a).Some? {
        VisitBelowSucceeds(g, t, i + 1, Visit(g, imports[i], a).value);
      }
    }
  }

  ghost predicate ResolvableFrom(g: Graph<Target>, imports: seq<Target>, i: nat) {
    forall j :: i <= j < |imports| ==> Resolvable(g, imports[j])
  }

  lemma {:induction false} ResolvableStep(g: Graph<Target>, imports: seq<Target>, i: nat)
    requires i < |imports|
    ensures ResolvableFrom(g, imports, i) <==> Resolvable(g, imports[i]) && ResolvableFrom(g, imports, i + 1)
  {
  }

  lemma {:induction false} ResolvableByChildren(g: Graph<Target>, t: Target)
    requires CoherentGraph(g) && t in g
    ensures Resolvable(g, t) <==> ResolvableFrom(g, ImportDict(g[t]), 0)
  {
    var imports := ImportDict(g[t]);
    if Resolvable(g, t) {
      forall j, u | 0 <= j < |imports| && Reaches(g, imports[j], u) ensures u in g {
        CoherentDict(g, t, imports[j]);
        ReachesStep(g, t, imports[j], u);
      }
    }
    if ResolvableFrom(g, imports, 0) {
      forall u | Reaches(g, t, u) ensures u in g {
        if u != t {
          var c := ReachesUnfold(g, t, u);
          CoherentDict(g, t, c);
        }
      }
    }
  }

  /** The closures of the imports from the `i`-th on. */
  ghost function Below(g: Graph<Target>, imports: seq<Target>, i: nat): set<Target>
    requires i <= |imports|
    decreases |imports| - i
  {
    if i == |imports| then {} else ReachSet(g, imports[i]) + Below(g, imports, i + 1)
  }

  lemma {:induction false} BelowContains(g: Graph<Target>, imports: seq<Target>, i: nat, j: nat, u: Target)
    requires i <= j < |imports| && u in ReachSet(g, imports[j])
    ensures u in Below(g, imports, i)
    decreases j - i
  {
    if i < j {
      BelowContains(g, imports, i + 1, j, u);
    }
  }

  lemma {:induction false} BelowWitness(g: Graph<Target>, imports: seq<Target>, i: nat, u: Target) returns (j: nat)
    requires i <= |imports| && u in Below(g, imports, i)
    ensures i <= j < |imports| && u in ReachSet(g, imports[j])
    decreases |imports| - i
  {
    if u in ReachSet(g, imports[i]) {
      j := i;
    } else {
      j := BelowWitness(g, imports, i + 1, u);
    }
  }

  /** Together the imports' closures are everything `t` reaches other than itself. */
  lemma {:induction false} BelowIsClosure(g: Graph<Target>, t: Target)
    requires Acyclic(g) && CoherentGraph(g) && t in g
    ensures Below(g, ImportDict(g[t]), 0) == ReachSet(g, t) - {t}
    ensures Below(g, ImportDict(g[t]), 0) + {t} == ReachSet(g, t)
  {
    var imports := ImportDict(g[t]);
    ReachesSelf(g, t);
    forall u ensures u in Below(g, imports, 0) <==> u in ReachSet(g, t) - {t} {
      if u in Below(g, imports, 0) {
        var j := BelowWitness(g, imports, 0, u);
        CoherentDict(g, t, imports[j]);
        ReachSetShrinks(g, t, imports[j]);
      }
      if u in ReachSet(g, t) - {t} {
        var c := ReachesUnfold(g, t, u);
        CoherentDict(g, t, c);
        var j :| 0 <= j < |imports| && imports[j] == c;
        BelowContains(g, imports, 0, j, u);
      }
    }
  }

  /** A visit merges in exactly the closure of its target. */
  lemma {:induction false} VisitMerges(g: Graph<Target>, t: Target, a: Found)
    requires Acyclic(g) && CoherentGraph(g) && Visit(g, t, a).Some?
    ensures MaxMerge(a.deps, ReachSet(g, t), Visit(g, t, a).value.deps)
    decreases |ReachSet(g, t)|, 1, 0
  {
    var b := VisitBelow(g, t, 0, a).value;
    VisitBelowMerges(g, t, 0, a);
    BelowIsClosure(g, t);
    MaxMergeJoins(a.deps, Below(g, ImportDict(g[t]), 0), b.deps, {t}, Add(b, t).deps);
  }

  lemma {:induction false} VisitBelowMerges(g: Graph<Target>, t: Target, i: nat, a: Found)
    requires Acyclic(g) && CoherentGraph(g) && t in g && i <= |ImportDict(g[t])|
    requires VisitBelow(g, t, i, a).Some?
    ensures MaxMerge(a.deps, Below(g, ImportDict(g[t]), i), VisitBelow(g, t, i, a).value.deps)
    decreases |ReachSet(g, t)|, 0, |ImportDict(g[t])| - i
  {
    var imports := ImportDict(g[t]);
    if i < |imports| {
      assert Edge(g, t, imports[i]);
      ReachSetShrinks(g, t, imports[i]);
      var b := Visit(g, imports[i], a).value;
      VisitMerges(g, imports[i], a);
      VisitBelowMerges(g, t, i + 1, b);
      MaxMergeJoins(a.deps, ReachSet(g, imports[i]), b.deps, Below(g, imports, i + 1), VisitBelow(g, t, i, a).value.deps);
    }
  }

  // ---- what the preprocessor was given ------------------------------------

  /** When a target was preprocessed, everything it needs was already available in a version at
      least as new. */
  ghost predicate Prepared(g: Graph<Target>, p: Preprocess) {
    && p.target in g
    && forall u :: u in ReachSet(g, p.target) && u.name != p.target.name ==>
         u.name in p.given && u.version <= p.given[u.name]
  }

  ghost predicate AllPrepared(g: Graph<Target>, runs: seq<Preprocess>) {
    forall i :: 0 <= i < |runs| ==> Prepared(g, runs[i])
  }

  lemma {:induction false} VisitPrepares(g: Graph<Target>, t: Target, a: Found)
    requires Acyclic(g) && CoherentGraph(g) && Visit(g, t, a).Some? && AllPrepared(g, a.runs)
    ensures AllPrepared(g, Visit(g, t, a).value.runs)
    decreases |ReachSet(g, t)|, 1, 0
  {
    var b := VisitBelow(g, t, 0, a).value;
    VisitBelowPrepares(g, t, 0, a);
    VisitBelowMerges(g, t, 0, a);
    BelowIsClosure(g, t);
    assert Prepared(g, Preprocess(t, b.deps - {t.name}));
  }

  lemma {:induction false} VisitBelowPrepares(g: Graph<Target>, t: Target, i: nat, a: Found)
    requires Acyclic(g) && CoherentGraph(g) && t in g && i <= |ImportDict(g[t])|
    requires VisitBelow(g, t, i, a).Some? && AllPrepared(g, a.runs)
    ensures AllPrepared(g, VisitBelow(g, t, i, a).value.runs)
    decreases |ReachSet(g, t)|, 0, |ImportDict(g[t])| - i
  {
    var imports := ImportDict(g[t]);
    if i < |imports| {
      assert Edge(g, t, imports[i]);
      ReachSetShrinks(g, t, imports[i]);
      VisitPrepares(g, imports[i], a);
      VisitBelowPrepares(g, t, i + 1, Visit(g, imports[i], a).value);
    }
  }

  // ---- every recorded dependency was preprocessed -------------------------

  /** The `i`-th run is the last one for its interface. */
  ghost predicate LastRun(runs: seq<Preprocess>, i: int) {
    0 <= i < |runs| && forall j :: i < j < |runs| ==> runs[j].target.name != runs[i].target.name
  }

  ghost predicate NameWasRun(runs: seq<Preprocess>, n: string) {
    exists i :: 0 <= i < |runs| && runs[i].target.name == n
  }

  predicate Has(deps: map<string, nat>, t: Target) {
    t.name in deps && deps[t.name] == t.version
  }

  /** `deps` holds, for each interface that was preprocessed and for no other, the version that came last. */
  ghost predicate HoldsLastRuns(runs: seq<Preprocess>, deps: map<string, nat>) {
    && (forall i :: LastRun(runs, i) ==> Has(deps, runs[i].target))
    && (forall n :: n in deps ==> NameWasRun(runs, n))
  }

  /** The preprocessor was given all that had been recorded, but for the interface itself. */
  ghost predicate GivenOthers(runs: seq<Preprocess>, i: nat)
    requires i < |runs|
  {
    exists deps :: HoldsLastRuns(runs[..i], deps) && runs[i].given == deps - {runs[i].target.name}
  }

  ghost predicate AllGivenOthers(runs: seq<Preprocess>) {
    forall i :: 0 <= i < |runs| ==> GivenOthers(runs, i)
  }

  /** Versions of an interface only rise. */
  ghost predicate Rising(runs: seq<Preprocess>) {
    forall i, j :: 0 <= i < j < |runs| && runs[i].target.name == runs[j].target.name ==> runs[i].target.version < runs[j].target.version
  }

  ghost predicate Precedes(order: seq<string>, m: string, n: string) {
    exists p, q :: 0 <= p < q < |order| && order[p] == m && order[q] == n
  }

  /** The order is that of the last runs. */
  ghost predicate OrderOfRuns(order: seq<string>, runs: seq<Preprocess>) {
    forall i, j :: LastRun(runs, i) && LastRun(runs, j) && i < j ==> Precedes(order, runs[i].target.name, runs[j].target.name)
  }

  /** The insertion order lists exactly the recorded names, by the time of their last preprocessor runs;
      what is recorded is what was preprocessed last; and each run was given what had been recorded. */
  ghost predicate Consistent(a: Found) {
    && Distinct(a.order)
    && (forall n :: n in a.order <==> n in a.deps)
    && HoldsLastRuns(a.runs, a.deps) && AllGivenOthers(a.runs) && Rising(a.runs) && OrderOfRuns(a.order, a.runs)
  }

  /** What one more run does to the last runs. */
  lemma {:induction false} LastRunsAfter(runs: seq<Preprocess>, p: Preprocess, i: int)
    ensures LastRun(runs + [p], i) <==> i == |runs| || (LastRun(runs, i) && runs[i].target.name != p.target.name)
  {
    var more := runs + [p];
    if LastRun(more, i) && i < |runs| {
      assert more[|runs|] == p;
      forall j | i < j < |runs| ensures runs[j].target.name != runs[i].target.name {
        assert more[j] == runs[j];
      }
    }
  }

  lemma {:induction false} HoldsAfter(runs: seq<Preprocess>, deps: map<string, nat>, p: Preprocess)
    requires HoldsLastRuns(runs, deps)
    ensures HoldsLastRuns(runs + [p], (deps - {p.target.name})[p.target.name := p.target.version])
  {
    var more, t := runs + [p], p.target;
    var after := (deps - {t.name})[t.name := t.version];
    forall i | LastRun(more, i) ensures Has(after, more[i].target) {
      LastRunsAfter(runs, p, i);
    }
    forall n | n in after ensures NameWasRun(more, n) {
      if n == t.name {
        assert more[|runs|].target.name == n;
      } else {
        var i :| 0 <= i < |runs| && runs[i].target.name == n;
        assert more[i].target.name == n;
      }
    }
  }

  lemma {:induction false} GivenAfter(runs: seq<Preprocess>, deps: map<string, nat>, p: Preprocess)
    requires HoldsLastRuns(runs, deps) && AllGivenOthers(runs) && p.given == deps - {p.target.name}
    ensures AllGivenOthers(runs + [p])
  {
    var more := runs + [p];
    forall i | 0 <= i < |more| ensures GivenOthers(more, i) {
      if i < |runs| {
        assert more[..i] == runs[..i];
        assert GivenOthers(runs, i);
      } else {
        assert more[..i] == runs;
      }
    }
  }

  lemma {:induction false} LastRunOf(runs: seq<Preprocess>, k: nat) returns (i: nat)
    requires k < |runs|
    ensures k <= i < |runs| && LastRun(runs, i) && runs[i].target.name == runs[k].target.name
    decreases |runs| - k
  {
    if j :| k < j < |runs| && runs[j].target.name == runs[k].target.name {
      i := LastRunOf(runs, j);
    } else {
      i := k;
    }
  }

  lemma {:induction false} RisingAfter(runs: seq<Preprocess>, deps: map<string, nat>, p: Preprocess)
    requires HoldsLastRuns(runs, deps) && Rising(runs) && (p.target.name in deps ==> deps[p.target.name] < p.target.version)
    ensures Rising(runs + [p])
  {
    forall k | 0 <= k < |runs| && runs[k].target.name == p.target.name ensures runs[k].target.version < p.target.version {
      var i := LastRunOf(runs, k);
      assert Has(deps, runs[i].target);
    }
  }

  /** Taking a name out keeps the others in order. */
  lemma {:induction false} WithoutKeepsOrder(order: seq<string>, name: string, m: string, n: string)
    requires Precedes(order, m, n) && m != name && n != name
    ensures Precedes(Without(order, name), m, n)
  {
    var p, q :| 0 <= p < q < |order| && order[p] == m && order[q] == n;
    if order[0] == name {
      assert order[1..][p - 1] == m && order[1..][q - 1] == n;
    } else {
      var r := Without(order[1..], name);
      if p == 0 {
        WithoutKeeps(order[1..], name, n, q - 1);
        var k :| 0 <= k < |r| && r[k] == n;
        assert ([order[0]] + r)[0] == m && ([order[0]] + r)[k + 1] == n;
      } else {
        assert order[1..][p - 1] == m && order[1..][q - 1] == n;
        WithoutKeepsOrder(order[1..], name, m, n);
        var k, l :| 0 <= k < l < |r| && r[k] == m && r[l] == n;
        assert ([order[0]] + r)[k + 1] == m && ([order[0]] + r)[l + 1] == n;
      }
    }
  }

  lemma {:induction false} WithoutKeeps(order: seq<string>, name: string, n: string, q: nat)
    requires q < |order| && order[q] == n && n != name
    ensures n in Without(order, name)
  {
    if order[0] == name {
      assert order[1..][q - 1] == n;
    } else if q > 0 {
      WithoutKeeps(order[1..], name, n, q - 1);
    }
  }

  lemma {:induction false} ComesLast(order: seq<string>, m: string, n: string)
    requires m in order
    ensures Precedes(order + [n], m, n)
  {
    var p :| 0 <= p < |order| && order[p] == m;
    assert (order + [n])[p] == m && (order + [n])[|order|] == n;
  }

  lemma {:induction false} StillPrecedes(order: seq<string>, m: string, n: string, x: string)
    requires Precedes(order, m, n)
    ensures Precedes(order + [x], m, n)
  {
    var p, q :| 0 <= p < q < |order| && order[p] == m && order[q] == n;
    assert (order + [x])[p] == m && (order + [x])[q] == n;
  }

  lemma {:induction false} OrderAfter(a: Found, p: Preprocess)
    requires Consistent(a)
    ensures OrderOfRuns(Without(a.order, p.target.name) + [p.target.name], a.runs + [p])
  {
    var runs, x := a.runs, p.target.name;
    var more, kept := runs + [p], Without(a.order, x);
    forall i, j | LastRun(more, i) && LastRun(more, j) && i < j ensures Precedes(kept + [x], more[i].target.name, more[j].target.name) {
      LastRunsAfter(runs, p, i);
      LastRunsAfter(runs, p, j);
      assert Has(a.deps, runs[i].target);
      if j == |runs| {
        ComesLast(kept, runs[i].target.name, x);
      } else {
        WithoutKeepsOrder(a.order, x, runs[i].target.name, runs[j].target.name);
        StillPrecedes(kept, runs[i].target.name, runs[j].target.name, x);
      }
    }
  }

  lemma {:induction false} AddConsistent(a: Found, t: Target)
    requires Consistent(a)
    ensures Consistent(Add(a, t))
  {
    if Add(a, t) != a {
      var p := Preprocess(t, a.deps - {t.name});
      HoldsAfter(a.runs, a.deps, p);
      GivenAfter(a.runs, a.deps, p);
      RisingAfter(a.runs, a.deps, p);
      OrderAfter(a, p);
      NewOrder(a.order, a.deps, t);
    }
  }

  lemma {:induction false} NewOrder(order: seq<string>, deps: map<string, nat>, t: Target)
    requires Distinct(order) && forall n :: n in order <==> n in deps
    ensures var r := Without(order, t.name) + [t.name];
      Distinct(r) && forall n :: n in r <==> n in (deps - {t.name})[t.name := t.version]
  {
    var kept := Without(order, t.name);
    forall i | 0 <= i < |kept| ensures kept[i] != t.name {
      assert kept[i] in kept;
    }
  }

  lemma {:induction false} VisitConsistent(g: Graph<Target>, t: Target, a: Found)
    requires Acyclic(g) && Visit(g, t, a).Some? && Consistent(a)
    ensures Consistent(Visit(g, t, a).value)
    decreases |ReachSet(g, t)|, 1, 0
  {
    VisitBelowConsistent(g, t, 0, a);
    AddConsistent(VisitBelow(g, t, 0, a).value, t);
  }

  lemma {:induction false} VisitBelowConsistent(g: Graph<Target>, t: Target, i: nat, a: Found)
    requires Acyclic(g) && t in g && i <= |ImportDict(g[t])|
    requires VisitBelow(g, t, i, a).Some? && Consistent(a)
    ensures Consistent(VisitBelow(g, t, i, a).value)
    decreases |ReachSet(g, t)|, 0, |ImportDict(g[t])| - i
  {
    var imports := ImportDict(g[t]);
    if i < |imports| {
      assert Edge(g, t, imports[i]);
      ReachSetShrinks(g, t, imports[i]);
      VisitConsistent(g, imports[i], a);
      VisitBelowConsistent(g, t, i + 1, Visit(g, imports[i], a).value);
    }
  }

  // ---- on every store a run can reach -------------------------------------

  lemma {:induction false} NextGraphIsCoherent(s: Store)
    ensures CoherentGraph(NextGraph(s))
  {
  }

  /** On every store a run reaches, the records as they are read make a graph the resolver can walk. */
  lemma {:induction false} RunIsWalkable(ops: seq<Op>, t: Target)
    requires var s := Run(map[], ops); t.name in s && t.version != NextVersion(s[t.name])
    ensures var s := Run(map[], ops); Walkable(Frozen, s, Part(ReadGraph(s), t)) && Answers(Frozen, s, Part(ReadGraph(s), t), t)
  {
    var s := Run(map[], ops);
    FrozenGraphIsAcyclic(ops);
    ReadGraphIsAcyclic(s);
    FrozenAnswers(s, t);
    forall a, c | Edge(ReadGraph(s), a, c) ensures Answers(Frozen, s, ReadGraph(s), c) {
      var d := ReadEdge(s, a, c);
      RecordsAreNotAhead(ops, a, d);
      RereadIsNotAhead(d);
      FrozenAnswers(s, c);
    }
    PartIsWalkable(Frozen, s, ReadGraph(s), t);
  }

  /** Everything `t` needs, at the newest version that anything it needs asks for; and only what it needs
      is preprocessed. */
  ghost predicate Resolution(g: Graph<Target>, t: Target, r: Found) {
    && MaxMerge(map[], ReachSet(g, t) - {t}, r.deps)
    && AllPrepared(g, r.runs)
    && Consistent(r)
    && forall i :: 0 <= i < |r.runs| ==> r.runs[i].target in ReachSet(g, t)
  }

  /** What a visit of the part that `t` reaches finds is the resolution of `t` in the whole. */
  lemma {:induction false} VisitResolves(g: Graph<Target>, t: Target)
    requires AcyclicFrom(g, t) && CoherentGraph(g) && t in g
    ensures Acyclic(Part(g, t)) && t in Part(g, t)
    ensures var r := VisitBelow(Part(g, t), t, 0, Found(map[], [], []));
      (r.Some? <==> Resolvable(g, t)) && (r.Some? ==> Resolution(g, t, r.value))
  {
    var start, p := Found(map[], [], []), Part(g, t);
    PartIsAcyclic(g, t);
    PartIsCoherent(g, t);
    PartResolvable(g, t);
    VisitSucceeds(p, t, start);
    if VisitBelow(p, t, 0, start).Some? {
      VisitBelowMerges(p, t, 0, start);
      BelowIsClosure(p, t);
      VisitBelowPrepares(p, t, 0, start);
      VisitBelowConsistent(p, t, 0, start);
      PartResolution(g, t, VisitBelow(p, t, 0, start).value);
    }
  }

  lemma {:induction false} PartResolution(g: Graph<Target>, t: Target, r: Found)
    requires t in g && MaxMerge(map[], ReachSet(Part(g, t), t) - {t}, r.deps) && AllPrepared(Part(g, t), r.runs) && Consistent(r)
    ensures Resolution(g, t, r)
  {
    ReachesSelf(g, t);
    PartReachSet(g, t, t);
    forall i | 0 <= i < |r.runs| ensures Prepared(g, r.runs[i]) && r.runs[i].target in ReachSet(g, t) {
      assert Prepared(Part(g, t), r.runs[i]);
      PartReachSet(g, t, r.runs[i].target);
    }
  }

  lemma {:induction false} PartIsCoherent(g: Graph<Target>, t: Target)
    requires CoherentGraph(g)
    ensures CoherentGraph(Part(g, t))
  {
    forall u, a, b | Edge(Part(g, t), u, a) && Edge(Part(g, t), u, b) && a.name == b.name ensures a == b {
      PartEdge(g, t, u, a);
      PartEdge(g, t, u, b);
    }
  }

  // ---- what a name with the separator does --------------------------------

  lemma {:induction false} EdgesReadAsFrozen(s: Store, t: Target)
    requires CoherentGraph(FrozenGraph(s)) && NamesReadable(s, t)
    ensures forall a, d :: Reaches(FrozenGraph(s), t, a) ==> (Edge(FrozenGraph(s), a, d) <==> Edge(ReadGraph(s), a, d))
  {
    forall a, d | Reaches(FrozenGraph(s), t, a) ensures Edge(FrozenGraph(s), a, d) <==> Edge(ReadGraph(s), a, d) {
      ReadableEdge(s, t, a, d);
    }
  }

  /** Where the names that count are read as written, the same resolves. */
  lemma {:induction false} ReadAsFrozen(s: Store, t: Target)
    requires CoherentGraph(FrozenGraph(s)) && NamesReadable(s, t)
    ensures Resolvable(ReadGraph(s), t) <==> Resolvable(FrozenGraph(s), t)
  {
    EdgesReadAsFrozen(s, t);
    ReachesSelf(FrozenGraph(s), t);
    forall u ensures Reaches(FrozenGraph(s), t, u) <==> Reaches(ReadGraph(s), t, u) {
      SameReach(FrozenGraph(s), ReadGraph(s), t, t, u);
    }
  }

  /** And to the same. */
  lemma {:induction false} ResolvedAsFrozen(s: Store, t: Target, r: Found)
    requires CoherentGraph(FrozenGraph(s)) && NamesReadable(s, t)
    ensures Resolution(ReadGraph(s), t, r) <==> Resolution(FrozenGraph(s), t, r)
  {
    EdgesReadAsFrozen(s, t);
    ReachesSelf(FrozenGraph(s), t);
    forall u | Reaches(FrozenGraph(s), t, u) ensures ReachSet(FrozenGraph(s), u) == ReachSet(ReadGraph(s), u) {
      SameReachSet(FrozenGraph(s), ReadGraph(s), t, u);
    }
    SameResolution(FrozenGraph(s), ReadGraph(s), t, r);
  }

  lemma {:induction false} SameResolution(g: Graph<Target>, h: Graph<Target>, t: Target, r: Found)
    requires g.Keys == h.Keys && Reaches(g, t, t) && forall u :: Reaches(g, t, u) ==> ReachSet(g, u) == ReachSet(h, u)
    ensures Resolution(g, t, r) <==> Resolution(h, t, r)
  {
    forall i | 0 <= i < |r.runs| && r.runs[i].target in ReachSet(g, t) ensures Prepared(g, r.runs[i]) <==> Prepared(h, r.runs[i]) {
      assert Reaches(g, t, r.runs[i].target);
    }
  }

  lemma {:induction false} SameReachSet(g: Graph<Target>, h: Graph<Target>, t: Target, u: Target)
    requires g.Keys == h.Keys && Reaches(g, t, u) && forall a, d :: Reaches(g, t, a) ==> (Edge(g, a, d) <==> Edge(h, a, d))
    ensures ReachSet(g, u) == ReachSet(h, u)
  {
    forall v ensures v in ReachSet(g, u) <==> v in ReachSet(h, u) {
      SameReach(g, h, t, u, v);
    }
  }

  /** No name with the separator is ever among the dependencies found. */
  lemma {:induction false} SeparatorsAreNotFound(s: Store, t: Target, r: Found, n: string)
    requires Resolution(ReadGraph(s), t, r) && n in r.deps
    ensures !Contains(n, "-v")
  {
    var u := Target(n, r.deps[n]);
    assert u in ReachSet(ReadGraph(s), t) - {t};
    var a := ReachesLast(ReadGraph(s), t, u);
    ReadNamesArePlain(s, a, u);
  }

  /** The resolution is the one over what was frozen exactly when no import that counts has the separator
      in its name. */
  lemma {:induction false} SeparatorsBreakResolution(s: Store, t: Target, r: Found)
    requires Closed(FrozenGraph(s)) && Acyclic(FrozenGraph(s)) && CoherentGraph(FrozenGraph(s)) && t in FrozenGraph(s)
    requires Resolution(ReadGraph(s), t, r)
    ensures Resolution(FrozenGraph(s), t, r) <==> NamesReadable(s, t)
  {
    var g := FrozenGraph(s);
    if NamesReadable(s, t) {
      ResolvedAsFrozen(s, t, r);
    } else {
      var a, d :| Reaches(g, t, a) && Edge(g, a, d) && Contains(d.name, "-v");
      SeparatorIsMissed(s, t, r, a, d);
    }
  }

  lemma {:induction false} SeparatorIsMissed(s: Store, t: Target, r: Found, a: Target, d: Target)
    requires Closed(FrozenGraph(s)) && Acyclic(FrozenGraph(s)) && Resolution(ReadGraph(s), t, r)
    requires Reaches(FrozenGraph(s), t, a) && Edge(FrozenGraph(s), a, d) && Contains(d.name, "-v")
    ensures !MaxMerge(map[], ReachSet(FrozenGraph(s), t) - {t}, r.deps)
  {
    ReachesNext(FrozenGraph(s), t, a, d);
    NotItself(FrozenGraph(s), t, a, d);
    assert d in ReachSet(FrozenGraph(s), t) - {t};
    if d.name in r.deps {
      SeparatorsAreNotFound(s, t, r, d.name);
    }
  }

  lemma {:induction false} NotItself(g: Graph<Target>, t: Target, a: Target, d: Target)
    requires Acyclic(g) && Reaches(g, t, a) && Edge(g, a, d)
    ensures d != t
  {
    if d == t {
      var w :| WalkFromTo(g, w, t, a);
      var c := w + [t];
      forall i | 0 <= i < |c| - 1 ensures Edge(g, c[i], c[i + 1]) {
        assert i < |w| - 1 ==> Edge(g, w[i], w[i + 1]);
      }
      assert IsCycle(g, c);
    }
  }

  /** A version whose last import has the separator in its name never resolves. */
  lemma {:induction false} MisreadImportFails(s: Store, t: Target)
    requires t in FrozenTargets(s)
    requires var records := s[t.name].versions[t.version - 1]; records != [] && Contains(records[|records| - 1].name, "-v")
    ensures !Resolvable(ReadGraph(s), t)
  {
    var records := s[t.name].versions[t.version - 1];
    var c := Reread(records[|records| - 1]);
    RereadMisreads(records[|records| - 1]);
    LastRecordIsKept(records);
    ReadGraphEdge(s, t, c);
    ReachesSelf(ReadGraph(s), t);
    ReachesNext(ReadGraph(s), t, t, c);
  }

  /** For instance, `hal` frozen after `audio-video`, which it imports: every freeze found its imports frozen,
      and yet version 1 of `hal` does not resolve, for the record is read as a version of `audio`. */
  lemma {:induction false} DashedNameFails()
    ensures var ops := [Edit("audio-video", []), Freeze("audio-video"), Edit("hal", [ImportSpec("audio-video", None)]), Freeze("hal")];
      && Disciplined(ops) && Target("hal", 1) in FrozenTargets(Run(map[], ops))
      && !Resolvable(ReadGraph(Run(map[], ops)), Target("hal", 1))
  {
    var ops := [Edit("audio-video", []), Freeze("audio-video"), Edit("hal", [ImportSpec("audio-video", None)]), Freeze("hal")];
    DashedRun();
    assert "audio-video"[5..7] == "-v";
    assert OccursAt("audio-video", "-v", 5);
    MisreadImportFails(Run(map[], ops), Target("hal", 1));
  }

  lemma {:induction false} DashedRun()
    ensures var ops := [Edit("audio-video", []), Freeze("audio-video"), Edit("hal", [ImportSpec("audio-video", None)]), Freeze("hal")];
      && Disciplined(ops) && "hal" in Run(map[], ops) && Run(map[], ops)["hal"].versions == [[Target("audio-video", 1)]]
  {
    var a, b, c, d := Edit("audio-video", []), Freeze("audio-video"), Edit("hal", [ImportSpec("audio-video", None)]), Freeze("hal");
    RunStep([], a);
    RunStep([a], b);
    RunStep([a, b], c);
    RunStep([a, b, c], d);
    assert [] + [a] == [a] && [a] + [b] == [a, b] && [a, b] + [c] == [a, b, c] && [a, b, c] + [d] == [a, b, c, d];
    var s1: Store := map["audio-video" := Interface([], [])];
    assert Run(map[], [a]) == s1;
    assert RecordedImports(s1, "audio-video") == [] && s1["audio-video"].versions + [[]] == [[]];
    var s2: Store := map["audio-video" := Interface([], [[]])];
    assert Run(map[], [a, b]) == s2;
    var s3 := s2["hal" := Interface([ImportSpec("audio-video", None)], [])];
    assert Run(map[], [a, b, c]) == s3;
    assert RecordedImports(s3, "hal") == [Target("audio-video", 1)];
    assert s3["hal"].versions + [[Target("audio-video", 1)]] == [[Target("audio-video", 1)]];
  }

  lemma {:induction false} RunStep(ops: seq<Op>, op: Op)
    ensures Run(map[], ops + [op]) == Apply(Run(map[], ops), op)
    ensures var s := Run(map[], ops);
      Disciplined(ops + [op]) <==> Disciplined(ops) && (op.Freeze? && ImportsKnown(s, op.name) ==> ImportsFrozen(s, op.name))
  {
    assert (ops + [op])[..|ops|] == ops;
  }

  // ---- the two modes ------------------------------------------------------

  /** A frozen version resolves exactly when every target that its records, as they are read, lead to
      exists.  Where no import that counts has the separator in its name, that is when all its records
      exist, hence always when every freeze found its imports frozen. */
  method ResolveFrozen(s: Store, name: string, version: nat, ghost ops: seq<Op>) returns (r: Option<Found>)
    requires s == Run(map[], ops) && name in s && version != NextVersion(s[name])
    ensures r.Some? <==> Resolvable(ReadGraph(s), Target(name, version))
    ensures r.Some? ==> Resolution(ReadGraph(s), Target(name, version), r.value)
    ensures NamesReadable(s, Target(name, version)) ==>
      && (r.Some? <==> Resolvable(FrozenGraph(s), Target(name, version)))
      && (r.Some? ==> Resolution(FrozenGraph(s), Target(name, version), r.value))
    ensures Disciplined(ops) && 1 <= version <= LatestVersion(s[name]) ==>
      (r.Some? && Resolution(FrozenGraph(s), Target(name, version), r.value) <==> NamesReadable(s, Target(name, version)))
    ensures r.Some? ==> 1 <= version <= LatestVersion(s[name])
  {
    ghost var g, t := ReadGraph(s), Target(name, version);
    RunIsOrderly(ops);
    ReadGraphIsAcyclic(s);
    AcyclicIsAcyclicFrom(g, t);
    ReadGraphIsCoherent(s);
    RunIsWalkable(ops, t);
    var resolver := new Resolver(name, version);
    var ok := resolver.ProcessImports(s, Frozen, name, Part(g, t));
    r := if ok then Some(resolver.found) else None;
    PartResolvable(g, t);
    if t in g {
      VisitResolves(g, t);
    } else {
      ReachesSelf(g, t);
    }
    if NamesReadable(s, t) {
      ReadableOutcome(s, t, r);
    }
    if Disciplined(ops) && t in FrozenGraph(s) {
      ClosedOutcome(s, t, r);
    }
  }

  /** What the outcome over the records as read says about the records as frozen. */
  lemma {:induction false} ReadableOutcome(s: Store, t: Target, r: Option<Found>)
    requires CoherentGraph(FrozenGraph(s)) && NamesReadable(s, t)
    requires (r.Some? <==> Resolvable(ReadGraph(s), t)) && (r.Some? ==> Resolution(ReadGraph(s), t, r.value))
    ensures (r.Some? <==> Resolvable(FrozenGraph(s), t)) && (r.Some? ==> Resolution(FrozenGraph(s), t, r.value))
  {
    ReadAsFrozen(s, t);
    if r.Some? {
      ResolvedAsFrozen(s, t, r.value);
    }
  }

  lemma {:induction false} ClosedOutcome(s: Store, t: Target, r: Option<Found>)
    requires Closed(FrozenGraph(s)) && Acyclic(FrozenGraph(s)) && CoherentGraph(FrozenGraph(s)) && t in FrozenGraph(s)
    requires (r.Some? <==> Resolvable(ReadGraph(s), t)) && (r.Some? ==> Resolution(ReadGraph(s), t, r.value))
    ensures r.Some? && Resolution(FrozenGraph(s), t, r.value) <==> NamesReadable(s, t)
  {
    if NamesReadable(s, t) {
      ClosedIsResolvable(FrozenGraph(s), t);
      ReadableOutcome(s, t, r);
    }
    if r.Some? {
      SeparatorsBreakResolution(s, t, r.value);
    }
  }

  /** What every run leaves. */
  lemma {:induction false} RunIsOrderly(ops: seq<Op>)
    ensures var g := FrozenGraph(Run(map[], ops)); Acyclic(g) && CoherentGraph(g) && (Disciplined(ops) <==> Closed(g))
  {
    RunKeepsChronicle(ops);
    FrozenGraphIsAcyclic(ops);
    DisciplineIsClosure(ops);
  }

  /** The next version resolves exactly when all it imports is loaded. */
  method ResolveNext(s: Store, name: string) returns (r: Option<Found>)
    requires name in s && AcyclicFrom(NextGraph(s), NextTarget(s, name))
    ensures r.Some? <==> Resolvable(NextGraph(s), NextTarget(s, name))
    ensures r.Some? ==> Resolution(NextGraph(s), NextTarget(s, name), r.value)
    ensures r.Some? ==> forall n :: n in r.value.deps ==> n in s && r.value.deps[n] == NextVersion(s[n])
  {
    ghost var g, t := NextGraph(s), NextTarget(s, name);
    NextIsWalkable(s, t);
    NextGraphIsCoherent(s);
    assert t in g;
    VisitResolves(g, t);
    var resolver := new Resolver(name, NextVersion(s[name]));
    var ok := resolver.ProcessImports(s, Next, name, Part(g, t));
    r := if ok then Some(resolver.found) else None;
  }

  /** In next mode the recursion from an interface has a deepest point exactly when no cycle of current
      imports can be reached from it; each level of recursion is one import. */
  lemma {:induction false} NextRecursionEnds(s: Store, name: string)
    requires name in s
    ensures HasDepth(NextGraph(s), NextTarget(s, name)) <==> AcyclicFrom(NextGraph(s), NextTarget(s, name))
  {
    DepthIsBounded(NextGraph(s), NextTarget(s, name));
  }

  /** On every store a run of edits and freezes reaches.  A frozen version is resolved over its records as
      they are read back; over what was frozen exactly when no import that counts has the separator in its
      name.  The next version is resolved over current imports, and needs no cycle among those it reaches. */
  method GetDependencies(s: Store, name: string, version: nat, ghost ops: seq<Op>) returns (r: Option<Found>)
    requires s == Run(map[], ops) && name in s
    requires version == NextVersion(s[name]) ==> AcyclicFrom(NextGraph(s), Target(name, version))
    ensures version != NextVersion(s[name]) ==>
      && (r.Some? <==> Resolvable(ReadGraph(s), Target(name, version)))
      && (r.Some? ==> Resolution(ReadGraph(s), Target(name, version), r.value))
      && (NamesReadable(s, Target(name, version)) ==>
            && (r.Some? <==> Resolvable(FrozenGraph(s), Target(name, version)))
            && (r.Some? ==> Resolution(FrozenGraph(s), Target(name, version), r.value)))
      && (Disciplined(ops) && 1 <= version <= LatestVersion(s[name]) ==>
            (r.Some? && Resolution(FrozenGraph(s), Target(name, version), r.value) <==> NamesReadable(s, Target(name, version))))
    ensures version == NextVersion(s[name]) ==>
      && (r.Some? <==> Resolvable(NextGraph(s), Target(name, version)))
      && (r.Some? ==> Resolution(NextGraph(s), Target(name, version), r.value))
      && (r.Some? ==> forall n :: n in r.value.deps ==> n in s && r.value.deps[n] == NextVersion(s[n]))
  {
    if version == NextVersion(s[name]) {
      r := ResolveNext(s, name);
    } else {
      r := ResolveFrozen(s, name, version, ops);
    }
  }
}
