/** The ordered list of library targets, one for every frozen version and one for every current interface. */
module LibraryList {
  import opened Basics
  import opened Digraph
  import opened OrderedDict
  import opened Text
  import opened TargetNames
  import opened TopologicalSort
  import opened VersionStore

  function FrozenLib(t: Target): Lib { Lib(t.name, Numbered(t.version)) }

  function CurrentLib(name: string): Lib { Lib(name, Current) }

  /** The pin that `get_imports` returns for an import without one; an entry may also spell it out. */
  const UNPINNED := "unknown"

  predicate FollowsCurrent(i: ImportSpec) {
    i.pin == None || i.pin == Some("current") || i.pin == Some(UNPINNED)
  }

  /** The target one current import links against. */
  function ImportLib(i: ImportSpec): Lib {
    if FollowsCurrent(i) then CurrentLib(i.name) else Lib(i.name, TagOf(i.pin.value))
  }

  function SpecName(i: ImportSpec): string { i.name }

  /** Current imports as the loader keeps them: one entry a name, the last pin wins. */
  function CurrentImports(f: Interface): seq<ImportSpec> {
    FromList(SpecName, f.imports)
  }

  /** No later entry has the name of the `i`-th. */
  predicate LastOfName(imports: seq<ImportSpec>, i: int) {
    0 <= i < |imports| && forall j :: i < j < |imports| ==> imports[j].name != imports[i].name
  }

  lemma {:induction false} HasLast(imports: seq<ImportSpec>, k: nat) returns (i: nat)
    requires k < |imports|
    ensures LastOfName(imports, i) && imports[i].name == imports[k].name
    decreases |imports| - k
  {
    if j :| k < j < |imports| && imports[j].name == imports[k].name {
      i := HasLast(imports, j);
    } else {
      i := k;
    }
  }

  /** Of several entries for one name the last counts, and no other. */
  lemma {:induction false} LastPinCounts(f: Interface, spec: ImportSpec)
    ensures spec in CurrentImports(f) <==> exists i :: LastOfName(f.imports, i) && f.imports[i] == spec
  {
    var d := CurrentImports(f);
    if i :| LastOfName(f.imports, i) && f.imports[i] == spec {
      LastAssignment(SpecName, f.imports, i);
    }
    if spec in d {
      var k :| 0 <= k < |f.imports| && f.imports[k] == spec;
      var i := HasLast(f.imports, k);
      LastAssignment(SpecName, f.imports, i);
      var p :| 0 <= p < |d| && d[p] == spec;
      var q :| 0 <= q < |d| && d[q] == f.imports[i];
      OneKeyOnePlace(SpecName, d, p, q);
    }
  }

  function Libs(imports: seq<ImportSpec>): (r: seq<Lib>)
    ensures |r| == |imports| && forall i :: 0 <= i < |r| ==> r[i] == ImportLib(imports[i])
  {
    seq(|imports|, i requires 0 <= i < |imports| => ImportLib(imports[i]))
  }

  function FrozenLibs(records: seq<Target>): (r: seq<Lib>)
    ensures |r| == |records| && forall i :: 0 <= i < |r| ==> r[i] == FrozenLib(records[i])
  {
    seq(|records|, i requires 0 <= i < |records| => FrozenLib(records[i]))
  }

  // ---- the dictionary -----------------------------------------------------

  /** Whether `l` is a target the store registers. */
  predicate Registered(s: Store, l: Lib) {
    && l.name in s
    && (l.version == Current || (l.version.Numbered? && 1 <= l.version.n <= |s[l.name].versions|))
  }

  function DepsOf(s: Store, l: Lib): seq<Lib>
    requires Registered(s, l)
  {
    if l.version == Current then Libs(CurrentImports(s[l.name]))
    else FrozenLibs(s[l.name].versions[l.version.n - 1])
  }

  /** `g` is the dictionary of all registered targets. */
  ghost predicate IsLibGraph(s: Store, g: Graph<Lib>) {
    forall l :: (l in g <==> Registered(s, l)) && (l in g ==> g[l] == DepsOf(s, l))
  }

  /** `g'` is `g` with the first `v` frozen targets of an interface. */
  ghost predicate FrozenAdded(s: Store, name: string, v: nat, g: Graph<Lib>, g': Graph<Lib>)
    requires name in s && v <= |s[name].versions|
  {
    && (forall l :: l in g' <==> l in g || (l.name == name && l.version.Numbered? && 1 <= l.version.n <= v))
    && (forall l :: l in g ==> l in g' && g'[l] == g[l])
    && (forall n :: 1 <= n <= v ==> Lib(name, Numbered(n)) in g' && g'[Lib(name, Numbered(n))] == FrozenLibs(s[name].versions[n - 1]))
  }

  ghost predicate ListsKeys(keys: seq<Lib>, g: Graph<Lib>) {
    Distinct(keys) && forall l :: l in keys <==> l in g
  }

  lemma {:induction false} OneMoreKey(keys: seq<Lib>, g: Graph<Lib>, l: Lib, deps: seq<Lib>)
    requires ListsKeys(keys, g) && l !in g
    ensures ListsKeys(keys + [l], g[l := deps])
  {
  }

  method RegisterFrozen(s: Store, name: string, keys: seq<Lib>, g: Graph<Lib>) returns (keys': seq<Lib>, g': Graph<Lib>)
    requires name in s && ListsKeys(keys, g) && forall l :: l in g ==> l.name != name
    ensures FrozenAdded(s, name, |s[name].versions|, g, g') && ListsKeys(keys', g')
  {
    keys', g' := keys, g;
    var versions := s[name].versions;
    for v := 0 to |versions|
      invariant ListsKeys(keys', g') && FrozenAdded(s, name, v, g, g')
    {
      var lib := Lib(name, Numbered(v + 1));
      OneMoreKey(keys', g', lib, FrozenLibs(versions[v]));
      keys' := keys' + [lib];
      g' := g'[lib := FrozenLibs(versions[v])];
    }
  }

  lemma {:induction false} InterfaceAdded(s: Store, name: string, done: Store, g: Graph<Lib>, g': Graph<Lib>)
    requires name in s && name !in done && IsLibGraph(done, g) && FrozenAdded(s, name, |s[name].versions|, g, g')
    ensures CurrentLib(name) !in g'
    ensures IsLibGraph(done[name := s[name]], g'[CurrentLib(name) := Libs(CurrentImports(s[name]))])
  {
    var done', g'' := done[name := s[name]], g'[CurrentLib(name) := Libs(CurrentImports(s[name]))];
    forall l ensures (l in g'' <==> Registered(done', l)) && (l in g'' ==> g''[l] == DepsOf(done', l)) {
      if l.name != name {
        assert Registered(done', l) <==> Registered(done, l);
      } else if l in g'' && l != CurrentLib(name) {
        assert l == Lib(name, Numbered(l.version.n));
      }
    }
  }

  /** Registers the targets of one interface: its frozen versions in order, then `current`. */
  method RegisterInterface(s: Store, name: string, ghost done: Store, keys: seq<Lib>, g: Graph<Lib>)
      returns (keys': seq<Lib>, g': Graph<Lib>)
    requires name in s && name !in done && IsLibGraph(done, g) && ListsKeys(keys, g)
    ensures IsLibGraph(done[name := s[name]], g') && ListsKeys(keys', g')
  {
    keys', g' := RegisterFrozen(s, name, keys, g);
    InterfaceAdded(s, name, done, g, g');
    OneMoreKey(keys', g', CurrentLib(name), Libs(CurrentImports(s[name])));
    keys' := keys' + [CurrentLib(name)];
    g' := g'[CurrentLib(name) := Libs(CurrentImports(s[name]))];
  }

  /** A line of the list: a target and what it depends on, as text. */
  datatype Line = Line(target: string, deps: seq<string>)

  datatype ListResult =
    | Lines(lines: seq<Line>)
    | Unresolved(target: string)
    | Cyclic

  /** The line of a target whose text is given by `text`. */
  function LineOf(text: Lib -> string, s: Store, l: Lib): Line
    requires Registered(s, l)
  {
    Line(text(l), Renamed(text, DepsOf(s, l)))
  }

  ghost predicate IsLineOf(text: Lib -> string, s: Store, line: Line) {
    exists l :: Registered(s, l) && line == LineOf(text, s, l)
  }

  ghost predicate HasLine(lines: seq<Line>, target: string, n: nat)
    requires n <= |lines|
  {
    exists j :: 0 <= j < n && lines[j].target == target
  }

  /** Every registered target once, each line after the lines of all its dependencies. */
  ghost predicate OrderedLines(text: Lib -> string, s: Store, lines: seq<Line>) {
    && (forall i, j :: 0 <= i < j < |lines| ==> lines[i].target != lines[j].target)
    && (forall l :: Registered(s, l) ==> HasLine(lines, text(l), |lines|))
    && (forall i :: 0 <= i < |lines| ==> IsLineOf(text, s, lines[i]))
    && (forall i, d :: 0 <= i < |lines| && d in lines[i].deps ==> HasLine(lines, d, i))
  }

  /** Registers all interfaces, in the order in which they were loaded. */
  method RegisterAll(s: Store, names: seq<string>) returns (keys: seq<Lib>, dict: Graph<Lib>)
    requires Distinct(names) && forall n :: n in names <==> n in s
    ensures IsLibGraph(s, dict) && ListsKeys(keys, dict)
  {
    keys, dict := [], map[];
    ghost var done: Store := map[];
    for i := 0 to |names|
      invariant done == map n | n in names[..i] :: s[n]
      invariant IsLibGraph(done, dict) && ListsKeys(keys, dict)
    {
      keys, dict := RegisterInterface(s, names[i], done, keys, dict);
      done := done[names[i] := s[names[i]]];
    }
    assert done == s;
  }

  /** A registered target is told by its text, whatever its interface is called. */
  lemma {:induction false} RegisteredTagsArePlain(s: Store, l: Lib)
    requires Registered(s, l)
    ensures !Contains(TagText(l.version), "-v") && TagOf(TagText(l.version)) == l.version
  {
    var tag := TagText(l.version);
    TagRoundTrip(tag, l.version);
    if l.version.Numbered? {
      DecimalIsDigits(l.version.n);
    }
    forall k: nat ensures !OccursAt(tag, "-v", k) {
      if k + 2 <= |tag| {
        assert tag[k..k + 2][0] == tag[k] && "-v"[0] == '-';
        assert tag == "current" ==> tag[k] != '-';
      }
    }
  }

  lemma {:induction false} RegisteredTextsDiffer(s: Store, a: Lib, b: Lib)
    requires Registered(s, a) && Registered(s, b) && LibText(a) == LibText(b)
    ensures a == b
  {
    RegisteredTagsArePlain(s, a);
    RegisteredTagsArePlain(s, b);
    LibTextInjective(a, b);
  }

  lemma {:induction false} TextsDiffer(s: Store, g: Graph<Lib>)
    requires IsLibGraph(s, g)
    ensures forall a, b :: a in g && b in g && LibText(a) == LibText(b) ==> a == b
  {
    forall a, b | a in g && b in g && LibText(a) == LibText(b) ensures a == b {
      RegisteredTextsDiffer(s, a, b);
    }
  }

  /** `names` is the order in which the interfaces were loaded; `g` is the dictionary over pairs, and `h` the
      one keyed by text, which is sorted. */
  method GenerateLibraries(s: Store, names: seq<string>) returns (r: ListResult, ghost g: Graph<Lib>, ghost h: Graph<string>)
    requires Distinct(names) && forall n :: n in names <==> n in s
    ensures IsLibGraph(s, g) && IsRenaming(g, h, LibText)
    ensures r.Unresolved? <==> !Closed(h)
    ensures r.Lines? <==> Closed(h) && Acyclic(h)
    ensures r.Lines? ==> OrderedLines(LibText, s, r.lines)
  {
    var keys, pairs := RegisterAll(s, names);
    TextsDiffer(s, pairs);
    var texts, dict := Rename(keys, pairs, LibText);
    g, h := pairs, dict;
    var sorted := Sort(texts, dict);
    match sorted
    case UnknownKey(k) => r := Unresolved(k);
    case CycleDetected => r := Cyclic;
    case Sorted(order) =>
      var lines := seq(|order|, i requires 0 <= i < |order| && order[i] in dict => Line(order[i], dict[order[i]]));
      r := Lines(lines);
      SortedLines(LibText, s, g, h, order, lines);
  }

  /** `lines` is `order` with dependencies. */
  ghost predicate IsListing(h: Graph<string>, order: seq<string>, lines: seq<Line>) {
    |lines| == |order| && forall i :: 0 <= i < |order| ==> order[i] in h && lines[i] == Line(order[i], h[order[i]])
  }

  lemma {:induction false} LineIsThere(h: Graph<string>, order: seq<string>, lines: seq<Line>, x: string, n: nat)
    requires IsListing(h, order, lines) && n <= |order| && x in order[..n]
    ensures HasLine(lines, x, n)
  {
    var i :| 0 <= i < n && order[..n][i] == x;
    assert lines[i].target == x;
  }

  lemma {:induction false} SortedLines(text: Lib -> string, s: Store, g: Graph<Lib>, h: Graph<string>, order: seq<string>, lines: seq<Line>)
    requires IsLibGraph(s, g) && IsRenaming(g, h, text) && TopologicalOrder(h, order) && IsListing(h, order, lines)
    ensures OrderedLines(text, s, lines)
  {
    forall l | Registered(s, l) ensures HasLine(lines, text(l), |lines|) {
      assert l in g;
      assert text(l) in order && order[..|order|] == order;
      LineIsThere(h, order, lines, text(l), |order|);
    }
    forall i | 0 <= i < |lines| ensures IsLineOf(text, s, lines[i]) {
      assert HasPreimage(g, text, order[i]);
      var l :| l in g && text(l) == order[i];
      assert lines[i] == LineOf(text, s, l);
    }
    forall i, d | 0 <= i < |lines| && d in lines[i].deps ensures HasLine(lines, d, i) {
      assert Edge(h, order[i], d);
      LineIsThere(h, order, lines, d, i);
    }
  }

  // ---- when the list exists -----------------------------------------------

  /** The names among the imports that follow their interface's current version. */
  function Followed(imports: seq<ImportSpec>): (r: seq<string>)
    ensures forall n :: n in r <==> exists i :: i in imports && FollowsCurrent(i) && i.name == n
  {
    if imports == [] then []
    else
      assert imports == [imports[0]] + imports[1..];
      (if FollowsCurrent(imports[0]) then [imports[0].name] else []) + Followed(imports[1..])
  }

  /** Who follows whose current version. */
  function CurrentGraph(s: Store): Graph<string> {
    map n | n in s :: Followed(CurrentImports(s[n]))
  }

  /** Every current import names a loaded interface, and every pin one of its frozen versions. */
  ghost predicate PinsResolve(s: Store) {
    forall n, i :: n in s && i in CurrentImports(s[n]) ==> Registered(s, ImportLib(i))
  }

  lemma {:induction false} LibsMember(imports: seq<ImportSpec>, b: Lib)
    ensures b in Libs(imports) <==> exists i :: i in imports && b == ImportLib(i)
  {
    if i :| i in imports && b == ImportLib(i) {
      var k :| 0 <= k < |imports| && imports[k] == i;
      assert Libs(imports)[k] == b;
    }
    if b in Libs(imports) {
      var k :| 0 <= k < |imports| && Libs(imports)[k] == b;
      assert imports[k] in imports;
    }
  }

  lemma {:induction false} FrozenLibsMember(records: seq<Target>, b: Lib)
    ensures b in FrozenLibs(records) <==> b.version.Numbered? && Target(b.name, b.version.n) in records
  {
    if b.version.Numbered? && Target(b.name, b.version.n) in records {
      var k :| 0 <= k < |records| && records[k] == Target(b.name, b.version.n);
      assert FrozenLibs(records)[k] == b;
    }
  }

  lemma {:induction false} CurrentEdge(s: Store, g: Graph<Lib>, a: Lib, b: Lib)
    requires IsLibGraph(s, g) && a.version == Current
    ensures Edge(g, a, b) <==> a.name in s && exists i :: i in CurrentImports(s[a.name]) && b == ImportLib(i)
  {
    assert a in g <==> Registered(s, a);
    if a.name in s {
      LibsMember(CurrentImports(s[a.name]), b);
    }
  }

  /** Edges out of a frozen target are the edges of the frozen graph. */
  lemma {:induction false} FrozenLibEdge(s: Store, g: Graph<Lib>, a: Lib, b: Lib)
    requires IsLibGraph(s, g) && a.version != Current
    ensures Edge(g, a, b) <==>
      && a.version.Numbered? && b.version.Numbered?
      && Edge(FrozenGraph(s), Target(a.name, a.version.n), Target(b.name, b.version.n))
  {
    assert a in g <==> Registered(s, a);
    if Registered(s, a) {
      FrozenLibsMember(s[a.name].versions[a.version.n - 1], b);
    }
    if a.version.Numbered? && b.version.Numbered? {
      FrozenEdge(s, Target(a.name, a.version.n), Target(b.name, b.version.n));
    }
  }

  /** Every target resolves exactly when every freeze found its imports frozen and every current
      import and pin resolves. */
  lemma {:induction false} LibGraphClosed(ops: seq<Op>, g: Graph<Lib>)
    requires IsLibGraph(Run(map[], ops), g)
    ensures Closed(g) <==> Disciplined(ops) && PinsResolve(Run(map[], ops))
  {
    var s := Run(map[], ops);
    DisciplineIsClosure(ops);
    if Closed(g) {
      ClosedLibGraphResolves(s, g);
    }
    if Closed(FrozenGraph(s)) && PinsResolve(s) {
      ResolvedLibGraphIsClosed(s, g);
    }
  }

  lemma {:induction false} ClosedLibGraphResolves(s: Store, g: Graph<Lib>)
    requires IsLibGraph(s, g) && Closed(g)
    ensures Closed(FrozenGraph(s)) && PinsResolve(s)
  {
    forall t, d | Edge(FrozenGraph(s), t, d) ensures d in FrozenGraph(s) {
      FrozenLibEdge(s, g, FrozenLib(t), FrozenLib(d));
      assert Registered(s, FrozenLib(d));
      RegisteredIsFrozen(s, d);
    }
    forall n, i | n in s && i in CurrentImports(s[n]) ensures Registered(s, ImportLib(i)) {
      CurrentEdge(s, g, CurrentLib(n), ImportLib(i));
    }
  }

  lemma {:induction false} RegisteredIsFrozen(s: Store, t: Target)
    ensures Registered(s, FrozenLib(t)) <==> t in FrozenGraph(s)
  {
  }

  lemma {:induction false} ResolvedLibGraphIsClosed(s: Store, g: Graph<Lib>)
    requires IsLibGraph(s, g) && Closed(FrozenGraph(s)) && PinsResolve(s)
    ensures Closed(g)
  {
    forall a, b | Edge(g, a, b) ensures b in g {
      if a.version == Current {
        CurrentEdge(s, g, a, b);
      } else {
        FrozenLibEdge(s, g, a, b);
        RegisteredIsFrozen(s, Target(b.name, b.version.n));
      }
      assert Registered(s, b);
    }
  }

  /** Frozen targets rank by the time of their freezing, below all current ones. */
  ghost function Rank(log: seq<Target>, c: Graph<string>, l: Lib): int {
    if l.version == Current then |log| + 1 + |ReachSet(c, l.name)|
    else if l.version.Numbered? then Index(log, Target(l.name, l.version.n))
    else -1
  }

  lemma {:induction false} IndexIsSmall(log: seq<Target>, t: Target)
    ensures Index(log, t) <= |log|
  {
  }

  /** Freezing never makes the list fail: only current interfaces that follow each other in a circle do. */
  lemma {:induction false} LibGraphAcyclic(ops: seq<Op>, g: Graph<Lib>)
    requires IsLibGraph(Run(map[], ops), g)
    ensures Acyclic(g) <==> Acyclic(CurrentGraph(Run(map[], ops)))
  {
    var c := CurrentGraph(Run(map[], ops));
    if Acyclic(c) {
      forall a, b | Edge(g, a, b) ensures Rank(FreezeLog(ops), c, b) < Rank(FreezeLog(ops), c, a) {
        RankDrops(ops, g, c, a, b);
      }
      RankedIsAcyclic(g, l => Rank(FreezeLog(ops), c, l));
    }
    if Acyclic(g) {
      forall w | IsCycle(c, w) ensures false {
        var v := seq(|w|, i requires 0 <= i < |w| => CurrentLib(w[i]));
        forall i | 0 <= i < |v| - 1 ensures Edge(g, v[i], v[i + 1]) {
          assert Edge(c, w[i], w[i + 1]);
          CurrentEdge(Run(map[], ops), g, v[i], v[i + 1]);
        }
        assert IsCycle(g, v);
      }
    }
  }

  lemma {:induction false} RankDrops(ops: seq<Op>, g: Graph<Lib>, c: Graph<string>, a: Lib, b: Lib)
    requires IsLibGraph(Run(map[], ops), g) && c == CurrentGraph(Run(map[], ops)) && Acyclic(c)
    requires Edge(g, a, b)
    ensures Rank(FreezeLog(ops), c, b) < Rank(FreezeLog(ops), c, a)
  {
    if a.version == Current {
      CurrentEdge(Run(map[], ops), g, a, b);
      CurrentRankDrops(Run(map[], ops), FreezeLog(ops), c, a, b);
    } else {
      FrozenLibEdge(Run(map[], ops), g, a, b);
      RecordIsOlder(ops, Target(a.name, a.version.n), Target(b.name, b.version.n));
    }
  }

  lemma {:induction false} CurrentRankDrops(s: Store, log: seq<Target>, c: Graph<string>, a: Lib, b: Lib)
    requires c == CurrentGraph(s) && Acyclic(c)
    requires a.version == Current && a.name in s && exists i :: i in CurrentImports(s[a.name]) && b == ImportLib(i)
    ensures Rank(log, c, b) < Rank(log, c, a)
  {
    if b.version == Current {
      var i :| i in CurrentImports(s[a.name]) && b == ImportLib(i);
      if FollowsCurrent(i) {
        assert Edge(c, a.name, b.name);
        ReachSetShrinks(c, a.name, b.name);
      }
    } else if b.version.Numbered? {
      IndexIsSmall(log, Target(b.name, b.version.n));
    }
  }

  lemma {:induction false} RecordIsOlder(ops: seq<Op>, t: Target, d: Target)
    requires Edge(FrozenGraph(Run(map[], ops)), t, d)
    ensures Index(FreezeLog(ops), d) < Index(FreezeLog(ops), t)
  {
    RunKeepsChronicle(ops);
    var log := FreezeLog(ops);
    var i := Index(log, t);
    assert Edge(FrozenGraph(Run(map[], ops)), log[i], d);
    assert d.version == 0 ==> d !in log;
    if d.version != 0 {
      assert d in log[..i];
    }
  }

  /** No pin of a current import has the separator in it. */
  ghost predicate PlainPins(s: Store) {
    forall n, i :: n in s && i in CurrentImports(s[n]) && i.pin.Some? ==> !Contains(i.pin.value, "-v")
  }

  lemma {:induction false} NumeralHasNoSeparator(n: nat)
    ensures !Contains(Decimal(n), "-v")
  {
    DecimalIsDigits(n);
    forall k: nat ensures !OccursAt(Decimal(n), "-v", k) {
      if k + 2 <= |Decimal(n)| {
        assert Decimal(n)[k..k + 2][0] == Decimal(n)[k] && "-v"[0] == '-';
      }
    }
  }

  /** A target that can be told by its text. */
  predicate Legible(l: Lib) {
    !Contains(TagText(l.version), "-v") && TagOf(TagText(l.version)) == l.version
  }

  lemma {:induction false} ImportIsLegible(i: ImportSpec)
    requires i.pin.Some? ==> !Contains(i.pin.value, "-v")
    ensures Legible(ImportLib(i))
  {
    if FollowsCurrent(i) {
      RegisteredTagsArePlain(map["x" := Interface([], [])], Lib("x", Current));
    } else {
      TagRoundTrip(i.pin.value, Current);
    }
  }

  lemma {:induction false} NumberedIsLegible(name: string, n: nat)
    ensures Legible(Lib(name, Numbered(n)))
  {
    TagRoundTrip("", Numbered(n));
    NumeralHasNoSeparator(n);
  }

  lemma {:induction false} DependencyIsLegible(s: Store, r: Lib, l: Lib)
    requires PlainPins(s) && Registered(s, r) && l in DepsOf(s, r)
    ensures Legible(l)
  {
    if r.version == Current {
      LibsMember(CurrentImports(s[r.name]), l);
      var i :| i in CurrentImports(s[r.name]) && l == ImportLib(i);
      ImportIsLegible(i);
    } else {
      FrozenLibsMember(s[r.name].versions[r.version.n - 1], l);
      NumberedIsLegible(l.name, l.version.n);
    }
  }

  lemma {:induction false} LegibleTextsDiffer(a: Lib, b: Lib)
    requires Legible(a) && Legible(b) && LibText(a) == LibText(b)
    ensures a == b
  {
    LibTextInjective(a, b);
  }

  /** Where no pin has the separator in it, texts tell apart all targets the list mentions: the dictionary
      keyed by text is the one over pairs.  What interfaces are called does not matter. */
  lemma {:induction false} TextsTellTargetsApart(s: Store, g: Graph<Lib>)
    requires IsLibGraph(s, g) && PlainPins(s)
    ensures TellsApart(g, LibText)
  {
    forall x, y | x in g && y in g && LibText(x) == LibText(y) ensures x == y {
      RegisteredTextsDiffer(s, x, y);
    }
    forall a, d, y | Edge(g, a, d) && y in g && LibText(d) == LibText(y) ensures d == y {
      DependencyIsLegible(s, a, d);
      RegisteredTagsArePlain(s, y);
      LegibleTextsDiffer(d, y);
    }
  }

  /** A pin that has it may link against another interface than the one imported. */
  lemma {:induction false} PinReadsAsAnother()
    ensures ImportLib(ImportSpec("common", Some("1-v2"))) == Lib("common", TagOf("1-v2")) != Lib("common-v1", Numbered(2))
    ensures LibText(ImportLib(ImportSpec("common", Some("1-v2")))) == LibText(Lib("common-v1", Numbered(2)))
  {
    TagRoundTrip("1-v2", Current);
    assert Decimal(2) == "2";
  }

  /** The list of a store that a run reached, keyed by text.  Where no pin has the separator in it, it is
      produced exactly when every freeze found its imports frozen, every current import and pin resolves, and
      no interfaces follow each other's current version in a circle; and it is then in dependency order. */
  method LibrariesOfRun(s: Store, names: seq<string>, ghost ops: seq<Op>) returns (r: ListResult, ghost g: Graph<Lib>, ghost h: Graph<string>)
    requires s == Run(map[], ops) && Distinct(names) && forall n :: n in names <==> n in s
    ensures IsLibGraph(s, g) && IsRenaming(g, h, LibText) && (r.Unresolved? <==> !Closed(h)) && (r.Lines? <==> Closed(h) && Acyclic(h))
    ensures PlainPins(s) ==>
      && (r.Lines? <==> Disciplined(ops) && PinsResolve(s) && Acyclic(CurrentGraph(s)))
      && (r.Unresolved? <==> !Disciplined(ops) || !PinsResolve(s))
    ensures r.Lines? ==> OrderedLines(LibText, s, r.lines)
  {
    r, g, h := GenerateLibraries(s, names);
    if PlainPins(s) {
      TextsTellTargetsApart(s, g);
      RenamedClosed(g, h, LibText);
      RenamedAcyclic(g, h, LibText);
      LibGraphClosed(ops, g);
      LibGraphAcyclic(ops, g);
    }
  }

  // ---- pins and freezes ---------------------------------------------------

  /** A numeral is the tag of its number and of no other. */
  lemma {:induction false} TagOfNumeral(text: string, n: nat)
    ensures TagOf(text) == Numbered(n) <==> text == Decimal(n)
  {
    TagRoundTrip(text, Numbered(n));
  }

  /** For every import as the loader keeps it, what a freeze records is what the import links against exactly
      when it is pinned to the latest frozen version; every other pin is ignored. */
  lemma {:induction false} FreezeIgnoresPins(s: Store, name: string, spec: ImportSpec)
    requires ImportsKnown(s, name) && spec in CurrentImports(s[name])
    ensures spec.name in s && Target(spec.name, LatestVersion(s[spec.name])) in RecordedImports(s, name)
    ensures FrozenLib(Target(spec.name, LatestVersion(s[spec.name]))) == ImportLib(spec) <==>
            spec.pin == Some(Decimal(LatestVersion(s[spec.name])))
  {
    assert spec in s[name].imports;
    var i :| 0 <= i < |s[name].imports| && s[name].imports[i] == spec;
    assert RecordedImports(s, name)[i] == Target(spec.name, LatestVersion(s[spec.name]));
    PinnedTo(spec, LatestVersion(s[spec.name]));
  }

  lemma {:induction false} PinnedTo(spec: ImportSpec, n: nat)
    ensures FrozenLib(Target(spec.name, n)) == ImportLib(spec) <==> spec.pin == Some(Decimal(n))
  {
    DecimalIsDigits(n);
    assert "current"[0] == 'c' && UNPINNED[0] == 'u';
    if spec.pin.Some? {
      TagOfNumeral(spec.pin.value, n);
    }
  }

  /** For instance, a freeze of an interface pinned to version 1 records version 2 once there is one. */
  lemma {:induction false} PinnedToOlderVersion()
    ensures var s: Store := map["common" := Interface([], [[], []]), "hal" := Interface([ImportSpec("common", Some("1"))], [])];
      && ImportsKnown(s, "hal") && RecordedImports(s, "hal") == [Target("common", 2)]
      && ImportLib(s["hal"].imports[0]) == FrozenLib(Target("common", 1))
  {
    TagOfNumeral("1", 1);
  }

  /** An entry may spell out the marker for an import without a pin; it is then no pin. */
  lemma {:induction false} UnknownPinIsNoPin(name: string)
    requires name != "" && !Contains(name, "@")
    ensures ReadImport(name + "@" + UNPINNED) == Some(ImportSpec(name, Some(UNPINNED)))
    ensures ImportLib(ImportSpec(name, Some(UNPINNED))) == CurrentLib(name) == ImportLib(ImportSpec(name, None))
  {
    ImportRoundTrip(ImportSpec(name, Some(UNPINNED)));
  }

  /** The text of the target that a current import links against. */
  lemma {:induction false} ImportText(i: ImportSpec)
    ensures LibText(ImportLib(i)) ==
      i.name + "-v" + (if i.pin == None || i.pin.value == "unknown" then "current" else i.pin.value) + "-cpp"
  {
    if i.pin.Some? {
      TagRoundTrip(i.pin.value, Current);
    }
  }

  /** What a definition file records for an import is, with its suffix, the text of the target. */
  lemma {:induction false} RecordIsTargetText(d: Target)
    ensures TargetText(d) + "-cpp" == LibText(FrozenLib(d))
  {
  }
}
