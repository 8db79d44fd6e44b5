/** The store of interface definitions: what each interface imports now, and for every frozen
    version the exact versions it was frozen against.  Runs of edits and freezes are the behaviours. */
module VersionStore {
  import opened Basics
  import opened Digraph

  /** A versioned interface, written `name-vN` in a definition file. */
  datatype Target = Target(name: string, version: nat)

  /** One `imports` entry; the pin is what follows `@`, if anything does. */
  datatype ImportSpec = ImportSpec(name: string, pin: Option<string>)

  /** `versions[i]` holds the imports recorded for frozen version `i + 1`. */
  datatype Interface = Interface(imports: seq<ImportSpec>, versions: seq<seq<Target>>)

  function LatestVersion(f: Interface): nat { |f.versions| }

  function NextVersion(f: Interface): nat { |f.versions| + 1 }

  type Store = map<string, Interface>

  function FrozenTargets(s: Store): set<Target> {
    set n, v | n in s && 1 <= v <= |s[n].versions| :: Target(n, v)
  }

  /** Every frozen version with the imports recorded for it. */
  function FrozenGraph(s: Store): Graph<Target> {
    map t | t in FrozenTargets(s) :: s[t.name].versions[t.version - 1]
  }

  // ---- steps --------------------------------------------------------------

  datatype Op =
    | Edit(name: string, imports: seq<ImportSpec>)
    | Freeze(name: string)

  predicate ImportsKnown(s: Store, name: string) {
    name in s && forall i :: 0 <= i < |s[name].imports| ==> s[name].imports[i].name in s
  }

  /** What a freeze of `name` records: the latest frozen version of each import, pins ignored. */
  function RecordedImports(s: Store, name: string): seq<Target>
    requires ImportsKnown(s, name)
  {
    var imports := s[name].imports;
    seq(|imports|, i requires 0 <= i < |imports| =>
      Target(imports[i].name, LatestVersion(s[imports[i].name])))
  }

  /** An edit defines a new interface or rewrites the import list of an old one.
      A freeze appends a version; one whose imports are not loaded aborts. */
  function Apply(s: Store, op: Op): Store {
    match op
    case Edit(n, imports) =>
      s[n := Interface(imports, if n in s then s[n].versions else [])]
    case Freeze(n) =>
      if ImportsKnown(s, n) then
        s[n := s[n].(versions := s[n].versions + [RecordedImports(s, n)])]
      else s
  }

  function Run(s: Store, ops: seq<Op>): Store {
    if ops == [] then s else Apply(Run(s, ops[..|ops| - 1]), ops[|ops| - 1])
  }

  /** The targets a run freezes, in the order of their freezing. */
  function FreezeLog(ops: seq<Op>): seq<Target> {
    if ops == [] then []
    else
      FreezeLog(ops[..|ops| - 1]) + Frozen(Run(map[], ops[..|ops| - 1]), ops[|ops| - 1])
  }

  /** The target, if any, that one step freezes. */
  function Frozen(s: Store, op: Op): seq<Target> {
    if op.Freeze? && ImportsKnown(s, op.name) then [Target(op.name, NextVersion(s[op.name]))] else []
  }

  predicate ImportsFrozen(s: Store, name: string)
    requires ImportsKnown(s, name)
  {
    forall i :: 0 <= i < |s[name].imports| ==> s[s[name].imports[i].name].versions != []
  }

  /** Every freeze in the run found each of its imports frozen at least once. */
  predicate Disciplined(ops: seq<Op>) {
    ops == [] ||
    (var before := Run(map[], ops[..|ops| - 1]);
     var op := ops[|ops| - 1];
     && Disciplined(ops[..|ops| - 1])
     && (op.Freeze? && ImportsKnown(before, op.name) ==> ImportsFrozen(before, op.name)))
  }

  // ---- what every run keeps -----------------------------------------------

  /** Records point backwards in time; only a record of version 0 can dangle. */
  ghost predicate Chronicle(s: Store, log: seq<Target>) {
    && Distinct(log)
    && (forall t :: t in log <==> t in FrozenTargets(s))
    && (forall i, d :: 0 <= i < |log| && Edge(FrozenGraph(s), log[i], d) ==> d.version == 0 || d in log[..i])
    && (forall t, d :: Edge(FrozenGraph(s), t, d) ==> d.name in s)
    && Coherent(s)
  }

  /** One frozen version never records two versions of the same import. */
  ghost predicate Coherent(s: Store) {
    forall t, a, b :: Edge(FrozenGraph(s), t, a) && Edge(FrozenGraph(s), t, b) && a.name == b.name ==> a == b
  }

  lemma FrozenEdge(s: Store, t: Target, d: Target)
    ensures Edge(FrozenGraph(s), t, d) <==>
            t.name in s && 1 <= t.version <= |s[t.name].versions| && d in s[t.name].versions[t.version - 1]
  {
  }

  lemma EditKeepsGraph(s: Store, n: string, imports: seq<ImportSpec>)
    ensures FrozenTargets(Apply(s, Edit(n, imports))) == FrozenTargets(s)
    ensures FrozenGraph(Apply(s, Edit(n, imports))) == FrozenGraph(s)
  {
    var s' := Apply(s, Edit(n, imports));
    forall t ensures t in FrozenTargets(s') <==> t in FrozenTargets(s) {
    }
  }

  lemma FreezeExtendsGraph(s: Store, n: string)
    requires ImportsKnown(s, n)
    ensures var t := Target(n, NextVersion(s[n]));
            && t !in FrozenTargets(s)
            && FrozenTargets(Apply(s, Freeze(n))) == FrozenTargets(s) + {t}
            && FrozenGraph(Apply(s, Freeze(n))) == FrozenGraph(s)[t := RecordedImports(s, n)]
  {
    var t := Target(n, NextVersion(s[n]));
    var s' := Apply(s, Freeze(n));
    forall u ensures u in FrozenTargets(s') <==> u in FrozenTargets(s) + {t} {
    }
    assert FrozenGraph(s').Keys == FrozenTargets(s) + {t};
  }

  lemma {:induction false} RunKeepsChronicle(ops: seq<Op>)
    ensures Chronicle(Run(map[], ops), FreezeLog(ops))
  {
    if ops == [] {
      EmptyChronicle();
    } else {
      var before := ops[..|ops| - 1];
      RunKeepsChronicle(before);
      StepKeepsChronicle(Run(map[], before), FreezeLog(before), ops[|ops| - 1]);
    }
  }

  lemma EmptyChronicle()
    ensures Chronicle(map[], [])
  {
    assert FrozenGraph(map[]) == map[];
  }

  lemma StepKeepsChronicle(s: Store, log: seq<Target>, op: Op)
    requires Chronicle(s, log)
    ensures Chronicle(Apply(s, op), log + Frozen(s, op))
  {
    match op
    case Edit(n, imports) =>
      assert log + [] == log;
      EditKeepsChronicle(s, log, n, imports);
    case Freeze(n) =>
      if ImportsKnown(s, n) {
        FreezeKeepsChronicle(s, log, n);
      } else {
        assert log + [] == log;
      }
  }

  lemma EditKeepsChronicle(s: Store, log: seq<Target>, n: string, imports: seq<ImportSpec>)
    requires Chronicle(s, log)
    ensures Chronicle(Apply(s, Edit(n, imports)), log)
  {
    EditKeepsGraph(s, n, imports);
  }

  lemma {:induction false} FreezeKeepsChronicle(s: Store, log: seq<Target>, n: string)
    requires Chronicle(s, log) && ImportsKnown(s, n)
    ensures Chronicle(Apply(s, Freeze(n)), log + [Target(n, NextVersion(s[n]))])
  {
    FreezeExtendsGraph(s, n);
    RecordsAreOlder(s, log, n);
    LogGrows(FrozenGraph(s), log, Target(n, NextVersion(s[n])), RecordedImports(s, n));
    forall u, d | Edge(FrozenGraph(Apply(s, Freeze(n))), u, d)
      ensures Edge(FrozenGraph(s), u, d) || (u == Target(n, NextVersion(s[n])) && d in RecordedImports(s, n))
    {
    }
  }

  lemma {:induction false} RecordsAreOlder(s: Store, log: seq<Target>, n: string)
    requires Chronicle(s, log) && ImportsKnown(s, n)
    ensures forall d :: d in RecordedImports(s, n) ==> d.version == 0 || d in log
  {
    forall d | d in RecordedImports(s, n) ensures d.version == 0 || d in log {
      assert d.version > 0 ==> d in FrozenTargets(s);
    }
  }

  /** A new target whose records are old keeps the log in order. */
  lemma {:induction false} LogGrows(g: Graph<Target>, log: seq<Target>, t: Target, records: seq<Target>)
    requires Distinct(log) && t !in g && (forall u :: u in log <==> u in g)
    requires forall i, d :: 0 <= i < |log| && Edge(g, log[i], d) ==> d.version == 0 || d in log[..i]
    requires forall d :: d in records ==> d.version == 0 || d in log
    ensures Distinct(log + [t])
    ensures forall i, d :: 0 <= i < |log + [t]| && Edge(g[t := records], (log + [t])[i], d) ==> d.version == 0 || d in (log + [t])[..i]
  {
    var log' := log + [t];
    forall i, d | 0 <= i < |log'| && Edge(g[t := records], log'[i], d) ensures d.version == 0 || d in log'[..i] {
      if i < |log| {
        assert log'[i] in log && log[..i] == log'[..i];
        assert Edge(g, log[i], d);
      } else {
        assert log'[..i] == log;
      }
    }
  }

  // ---- the theorems -------------------------------------------------------

  /** Whatever is frozen, in whatever order, with whatever imports, frozen versions never form a cycle. */
  lemma FrozenGraphIsAcyclic(ops: seq<Op>)
    ensures Acyclic(FrozenGraph(Run(map[], ops)))
  {
    RunKeepsChronicle(ops);
    var g, log := FrozenGraph(Run(map[], ops)), FreezeLog(ops);
    var rank := (t: Target) => Index(log, t);
    forall a, b | Edge(g, a, b) ensures rank(b) < rank(a) {
      var i := Index(log, a);
      assert Edge(g, log[i], b);
      assert b.version == 0 ==> b !in log;
      if b.version != 0 {
        assert b in log[..i];
      }
    }
    RankedIsAcyclic(g, rank);
  }

  lemma {:induction false} DisciplineIsClosure(ops: seq<Op>)
    ensures Disciplined(ops) <==> Closed(FrozenGraph(Run(map[], ops)))
  {
    if ops == [] {
      assert FrozenGraph(map[]) == map[];
    } else {
      var s, op := Run(map[], ops[..|ops| - 1]), ops[|ops| - 1];
      DisciplineIsClosure(ops[..|ops| - 1]);
      RunKeepsChronicle(ops[..|ops| - 1]);
      match op
      case Edit(n, imports) =>
        EditKeepsGraph(s, n, imports);
      case Freeze(n) =>
        if ImportsKnown(s, n) {
          FreezeClosure(s, FreezeLog(ops[..|ops| - 1]), n);
        }
    }
  }

  /** A freeze keeps the graph closed exactly when every import was frozen before. */
  lemma FreezeClosure(s: Store, log: seq<Target>, n: string)
    requires Chronicle(s, log) && ImportsKnown(s, n)
    ensures Closed(FrozenGraph(Apply(s, Freeze(n)))) <==> Closed(FrozenGraph(s)) && ImportsFrozen(s, n)
  {
    FreezeExtendsGraph(s, n);
    var g, g' := FrozenGraph(s), FrozenGraph(Apply(s, Freeze(n)));
    var t := Target(n, NextVersion(s[n]));
    var recorded := RecordedImports(s, n);
    if Closed(g') {
      forall u, d | Edge(g, u, d) ensures d in g {
        assert Edge(g', u, d) && d in g';
        var i := Index(log, u);
        assert Edge(g, log[i], d);
        assert d.version > 0;
      }
      forall i | 0 <= i < |s[n].imports| ensures s[s[n].imports[i].name].versions != [] {
        assert Edge(g', t, recorded[i]) && recorded[i] in g';
        assert recorded[i].version > 0;
      }
    }
    if Closed(g) && ImportsFrozen(s, n) {
      forall u, d | Edge(g', u, d) ensures d in g' {
        if u == t {
          var i :| 0 <= i < |recorded| && recorded[i] == d;
          assert s[s[n].imports[i].name].versions != [];
          assert d in FrozenTargets(s);
        } else {
          assert Edge(g, u, d);
        }
      }
    }
  }

  /** The order in which versions were frozen is a topological order of the frozen graph
      exactly when every freeze found its imports frozen. */
  lemma FreezeOrderIsTopological(ops: seq<Op>)
    ensures TopologicalOrder(FrozenGraph(Run(map[], ops)), FreezeLog(ops)) <==> Disciplined(ops)
  {
    RunKeepsChronicle(ops);
    DisciplineIsClosure(ops);
    ChronicleIsTopological(Run(map[], ops), FreezeLog(ops));
  }

  lemma ChronicleIsTopological(s: Store, log: seq<Target>)
    requires Chronicle(s, log)
    ensures TopologicalOrder(FrozenGraph(s), log) <==> Closed(FrozenGraph(s))
  {
    var g := FrozenGraph(s);
    if Closed(g) {
      forall i, d | 0 <= i < |log| && Edge(g, log[i], d) ensures d in log[..i] {
        assert d in g && d.version > 0;
      }
    }
    if TopologicalOrder(g, log) {
      forall u, d | Edge(g, u, d) ensures d in g {
        var i := Index(log, u);
        assert Edge(g, log[i], d);
        assert d in log;
      }
    }
  }

  lemma {:induction false} StepKeepsEdges(s: Store, op: Op, t: Target, d: Target)
    requires Edge(FrozenGraph(s), t, d)
    ensures Edge(FrozenGraph(Apply(s, op)), t, d)
  {
    match op
    case Edit(n, imports) => EditKeepsGraph(s, n, imports);
    case Freeze(n) =>
      if ImportsKnown(s, n) {
        FreezeExtendsGraph(s, n);
      }
  }

  /** What is recorded stays recorded. */
  lemma {:induction false} RunKeepsEdges(ops: seq<Op>, k: nat, t: Target, d: Target)
    requires k <= |ops| && Edge(FrozenGraph(Run(map[], ops[..k])), t, d)
    ensures Edge(FrozenGraph(Run(map[], ops)), t, d)
    decreases |ops|
  {
    if k == |ops| {
      assert ops[..k] == ops;
    } else {
      var before := ops[..|ops| - 1];
      assert before[..k] == ops[..k];
      RunKeepsEdges(before, k, t, d);
      StepKeepsEdges(Run(map[], before), ops[|ops| - 1], t, d);
    }
  }

  lemma {:induction false} FreezeRecords(s: Store, n: string, i: nat)
    requires ImportsKnown(s, n) && i < |s[n].imports|
    ensures Edge(FrozenGraph(Apply(s, Freeze(n))), Target(n, NextVersion(s[n])), RecordedImports(s, n)[i])
  {
    FreezeExtendsGraph(s, n);
    assert RecordedImports(s, n)[i] in RecordedImports(s, n);
  }

  /** A freeze that finds an import never frozen records version 0 of it, and however the run goes on, that
      record stays and the version never exists. */
  lemma {:induction false} UnfrozenImportDangles(ops: seq<Op>, k: nat, i: nat)
    requires k < |ops| && ops[k].Freeze?
    requires var s, n := Run(map[], ops[..k]), ops[k].name;
      ImportsKnown(s, n) && i < |s[n].imports| && s[s[n].imports[i].name].versions == []
    ensures var s, n := Run(map[], ops[..k]), ops[k].name;
      var record := Target(s[n].imports[i].name, 0);
      Edge(FrozenGraph(Run(map[], ops)), Target(n, NextVersion(s[n])), record) && record !in FrozenGraph(Run(map[], ops))
  {
    var s, n := Run(map[], ops[..k]), ops[k].name;
    FreezeRecords(s, n, i);
    assert ops[..k + 1][..k] == ops[..k] && ops[..k + 1][k] == ops[k];
    assert Run(map[], ops[..k + 1]) == Apply(s, Freeze(n));
    RunKeepsEdges(ops, k + 1, Target(n, NextVersion(s[n])), RecordedImports(s, n)[i]);
  }

  /** For instance, freezing `hal` before `common`, which it imports, has ever been frozen. */
  lemma UndisciplinedFreezeDangles()
    ensures var ops := [Edit("hal", [ImportSpec("common", None)]), Edit("common", []), Freeze("hal"), Freeze("common")];
            && !Disciplined(ops)
            && Edge(FrozenGraph(Run(map[], ops)), Target("hal", 1), Target("common", 0))
  {
    var hal, common := [ImportSpec("common", None)], [];
    var a := Edit("hal", hal);
    var b := Edit("common", common);
    assert Run(map[], [a]) == map["hal" := Interface(hal, [])] by {
      assert [a][..0] == [];
    }
    var s2 := map["hal" := Interface(hal, []), "common" := Interface([], [])];
    assert Run(map[], [a, b]) == s2 by {
      assert [a, b][..1] == [a];
    }
    var s3 := Run(map[], [a, b, Freeze("hal")]);
    assert s3 == s2["hal" := Interface(hal, [[Target("common", 0)]])] by {
      assert [a, b, Freeze("hal")][..2] == [a, b];
      assert ImportsKnown(s2, "hal");
      assert LatestVersion(s2["common"]) == 0;
      assert RecordedImports(s2, "hal") == [Target("common", 0)];
      assert s2["hal"].versions + [RecordedImports(s2, "hal")] == [[Target("common", 0)]];
    }
    var ops := [a, b, Freeze("hal"), Freeze("common")];
    assert ops[..3] == [a, b, Freeze("hal")];
    assert Run(map[], ops)["hal"].versions == [[Target("common", 0)]];
    FrozenEdge(Run(map[], ops), Target("hal", 1), Target("common", 0));
    assert !ImportsFrozen(s2, "hal") by {
      assert s2[s2["hal"].imports[0].name].versions == [];
    }
    assert ops[..3][..2] == [a, b];
    assert !Disciplined(ops[..3]);
  }

  /** No record runs ahead of the store, disciplined or not. */
  lemma RecordsAreNotAhead(ops: seq<Op>, t: Target, d: Target)
    requires Edge(FrozenGraph(Run(map[], ops)), t, d)
    ensures var s := Run(map[], ops); d.name in s && d.version <= LatestVersion(s[d.name])
  {
    RunKeepsChronicle(ops);
    var log := FreezeLog(ops);
    var i := Index(log, t);
    assert Edge(FrozenGraph(Run(map[], ops)), log[i], d);
    assert d.version > 0 ==> d in log;
  }
}
