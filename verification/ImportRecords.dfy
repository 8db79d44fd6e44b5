/** The imports recorded for frozen versions, as definition files hold them and as they are read back. */
module ImportRecords {
  import opened Digraph
  import opened OrderedDict
  import opened Text
  import opened VersionStore
  import opened TargetNames

  ghost predicate CoherentGraph(g: Graph<Target>) {
    forall t, a, b :: Edge(g, t, a) && Edge(g, t, b) && a.name == b.name ==> a == b
  }

  function NameOf(t: Target): string { t.name }

  /** The dictionary a list of records builds: the last record of a name wins. */
  function ImportDict(records: seq<Target>): (d: seq<Target>)
    ensures forall u :: u in d ==> u in records
  {
    FromList(NameOf, records)
  }

  lemma {:induction false} CoherentDict(g: Graph<Target>, t: Target, d: Target)
    requires CoherentGraph(g) && t in g
    ensures d in ImportDict(g[t]) <==> Edge(g, t, d)
  {
    forall a, b | a in g[t] && b in g[t] && a.name == b.name ensures a == b {
      assert Edge(g, t, a) && Edge(g, t, b);
    }
    if d in g[t] {
      FromListKeeps(NameOf, g[t], d);
    }
  }

  lemma {:induction false} DictOfDict(records: seq<Target>)
    ensures ImportDict(ImportDict(records)) == ImportDict(records)
  {
    var d := ImportDict(records);
    FromDistinctList(NameOf, d, |d|);
    assert d[..|d|] == d;
  }

  // ---- reading ------------------------------------------------------------

  function ReadRecords(records: seq<Target>): (r: seq<Target>)
    ensures |r| == |records| && forall i :: 0 <= i < |r| ==> r[i] == Reread(records[i])
  {
    seq(|records|, i requires 0 <= i < |records| => Reread(records[i]))
  }

  /** The imports of a frozen version as they are read: one a name, the last one wins. */
  function ReadImports(s: Store, t: Target): seq<Target>
    requires t in FrozenTargets(s)
  {
    ImportDict(ReadRecords(s[t.name].versions[t.version - 1]))
  }

  lemma {:induction false} LastRecordIsKept(records: seq<Target>)
    requires records != []
    ensures Reread(records[|records| - 1]) in ImportDict(ReadRecords(records))
  {
    LastIsKept(NameOf, ReadRecords(records));
  }

  lemma {:induction false} ReadImportsIsDict(s: Store, t: Target)
    requires t in FrozenTargets(s)
    ensures ImportDict(ReadImports(s, t)) == ReadImports(s, t)
  {
    DictOfDict(ReadRecords(s[t.name].versions[t.version - 1]));
  }

  /** Every frozen version with its imports as they are read. */
  function ReadGraph(s: Store): Graph<Target> {
    map t | t in FrozenTargets(s) :: ReadImports(s, t)
  }

  lemma {:induction false} ReadGraphEdge(s: Store, t: Target, c: Target)
    ensures Edge(ReadGraph(s), t, c) <==> t in FrozenTargets(s) && c in ReadImports(s, t)
  {
  }

  lemma {:induction false} ReadRecordOf(records: seq<Target>, c: Target) returns (d: Target)
    requires c in ImportDict(ReadRecords(records))
    ensures d in records && c == Reread(d)
  {
    assert c in ReadRecords(records);
    var i :| 0 <= i < |records| && ReadRecords(records)[i] == c;
    d := records[i];
  }

  lemma {:induction false} ReadEdge(s: Store, t: Target, c: Target) returns (d: Target)
    requires Edge(ReadGraph(s), t, c)
    ensures Edge(FrozenGraph(s), t, d) && c == Reread(d)
  {
    ReadGraphEdge(s, t, c);
    d := ReadRecordOf(s[t.name].versions[t.version - 1], c);
    FrozenEdge(s, t, d);
  }

  lemma {:induction false} ReadNamesArePlain(s: Store, t: Target, c: Target)
    requires Edge(ReadGraph(s), t, c)
    ensures !Contains(c.name, "-v")
  {
    var d := ReadEdge(s, t, c);
    NamesReadArePlain(TargetText(d));
  }

  lemma {:induction false} RereadIsNotAhead(d: Target)
    ensures Reread(d) == d || Reread(d).version == 0
  {
    if Contains(d.name, "-v") {
      RereadMisreads(d);
    } else {
      RereadPlain(d);
    }
  }

  lemma {:induction false} DictIsCoherent(records: seq<Target>, a: Target, b: Target)
    requires a in ImportDict(records) && b in ImportDict(records) && a.name == b.name
    ensures a == b
  {
    var d := ImportDict(records);
    var i :| 0 <= i < |d| && d[i] == a;
    var j :| 0 <= j < |d| && d[j] == b;
    assert NameOf(d[i]) == NameOf(d[j]);
  }

  lemma {:induction false} ReadGraphIsCoherent(s: Store)
    ensures CoherentGraph(ReadGraph(s))
  {
    forall t, a, b | Edge(ReadGraph(s), t, a) && Edge(ReadGraph(s), t, b) && a.name == b.name ensures a == b {
      ReadGraphEdge(s, t, a);
      ReadGraphEdge(s, t, b);
      DictIsCoherent(ReadRecords(s[t.name].versions[t.version - 1]), a, b);
    }
  }

  /** Misread records lead nowhere, so reading makes no cycle. */
  lemma {:induction false} ReadGraphIsAcyclic(s: Store)
    requires Acyclic(FrozenGraph(s))
    ensures Acyclic(ReadGraph(s))
  {
    forall w | IsCycle(ReadGraph(s), w) ensures false {
      ReadCycle(s, w);
    }
  }

  lemma {:induction false} ReadCycle(s: Store, w: seq<Target>)
    requires IsCycle(ReadGraph(s), w)
    ensures IsCycle(FrozenGraph(s), w)
  {
    forall i | 0 <= i < |w| - 1 ensures Edge(FrozenGraph(s), w[i], w[i + 1]) {
      assert Edge(ReadGraph(s), w[i], w[i + 1]);
      assert w[i + 1] in ReadGraph(s) by {
        if i + 1 < |w| - 1 {
          assert Edge(ReadGraph(s), w[i + 1], w[i + 2]);
        } else {
          assert Edge(ReadGraph(s), w[0], w[1]);
        }
      }
      var d := ReadEdge(s, w[i], w[i + 1]);
      RereadIsNotAhead(d);
    }
  }

  // ---- names that are read as written -------------------------------------

  /** No import that `t` reaches has the separator in its name. */
  ghost predicate NamesReadable(s: Store, t: Target) {
    forall a, d :: Reaches(FrozenGraph(s), t, a) && Edge(FrozenGraph(s), a, d) ==> !Contains(d.name, "-v")
  }

  lemma {:induction false} ReadableEdge(s: Store, t: Target, a: Target, d: Target)
    requires CoherentGraph(FrozenGraph(s)) && NamesReadable(s, t) && Reaches(FrozenGraph(s), t, a)
    ensures Edge(FrozenGraph(s), a, d) <==> Edge(ReadGraph(s), a, d)
  {
    if a in FrozenGraph(s) {
      var records := FrozenGraph(s)[a];
      forall i | 0 <= i < |records| ensures !Contains(records[i].name, "-v") {
        assert Edge(FrozenGraph(s), a, records[i]);
      }
      PlainRecords(records);
      CoherentDict(FrozenGraph(s), a, d);
      ReadGraphEdge(s, a, d);
    }
  }

  lemma {:induction false} PlainRecords(records: seq<Target>)
    requires forall i :: 0 <= i < |records| ==> !Contains(records[i].name, "-v")
    ensures ReadRecords(records) == records
  {
    forall i | 0 <= i < |records| ensures Reread(records[i]) == records[i] {
      RereadPlain(records[i]);
    }
  }

  /** A store without such names reads every record as it was written. */
  lemma {:induction false} PlainNamesAreReadable(ops: seq<Op>, t: Target)
    requires forall n :: n in Run(map[], ops) ==> !Contains(n, "-v")
    ensures NamesReadable(Run(map[], ops), t)
  {
    RunKeepsChronicle(ops);
  }
}
