/** The life of versioned interfaces on disk: sources are edited, copied to `current` by an update,
    and copied to a numbered directory by a freeze. */
module ReleaseCycle {
  import opened Basics
  import opened Digraph
  import opened Text
  import VS = VersionStore

  /** The AIDL files of a directory, by path. */
  type Files = map<string, string>

  /** A directory under the stable tree: its files and its hash file. */
  datatype Snapshot = Snapshot(files: Files, hash: Option<string>)

  /** One interface: its definition, the directory being edited, and the stable directories. */
  datatype Module = Module(def: VS.Interface, source: Files, current: Option<Snapshot>, frozen: map<nat, Snapshot>)

  type Workspace = map<string, Module>

  /** The tools called from outside: a hash of files and a word, and the compiler's two API checks. */
  datatype Tools = Tools(hash: (Files, string) -> string, compatible: (Files, Files) -> bool, equal: (Files, Files) -> bool)

  ghost predicate Transitive(t: Tools) {
    forall a, b, c :: t.compatible(a, b) && t.compatible(b, c) ==> t.compatible(a, c)
  }

  /** The word hashed together with the files: the number before the version's own. */
  function HashWord(version: nat): string {
    if version > 1 then Decimal(version - 1) else "latest-version"
  }

  function Stamp(t: Tools, files: Files, version: nat): string {
    t.hash(files, HashWord(version))
  }

  // ---- validation ---------------------------------------------------------

  datatype Dump = Dump(version: nat, snapshot: Snapshot)

  /** The frozen versions the definition lists, then `current`; `None` when a listed directory is missing. */
  function Dumps(m: Module): Option<seq<Dump>> {
    var n := |m.def.versions|;
    var current := if m.current.None? then [] else [Dump(n + 1, m.current.value)];
    if m.frozen == map[] then Some(current)
    else if forall v :: 1 <= v <= n ==> v in m.frozen then
      Some(seq(n, i requires 0 <= i < n && i + 1 in m.frozen => Dump(i + 1, m.frozen[i + 1])) + current)
    else None
  }

  /** Only the last dump may lack a hash; every hash is right. */
  predicate IntactAt(t: Tools, dumps: seq<Dump>, i: nat)
    requires i < |dumps|
  {
    match dumps[i].snapshot.hash
    case None => i == |dumps| - 1
    case Some(h) => h == Stamp(t, dumps[i].snapshot.files, dumps[i].version)
  }

  predicate CompatibleAt(t: Tools, dumps: seq<Dump>, i: nat)
    requires i < |dumps|
  {
    i > 0 ==> t.compatible(dumps[i - 1].snapshot.files, dumps[i].snapshot.files)
  }

  /** Integrity of every dump, and compatibility of neighbours; the compiler runs only if the
      dependencies resolve. */
  predicate Validates(t: Tools, m: Module, resolved: bool) {
    match Dumps(m)
    case None => false
    case Some(dumps) =>
      && (|dumps| > 1 ==> resolved)
      && forall i :: 0 <= i < |dumps| ==> IntactAt(t, dumps, i) && CompatibleAt(t, dumps, i)
  }

  // ---- steps --------------------------------------------------------------

  /** `resolved` and `imported` say whether the dependency resolution inside a command succeeds. */
  datatype Op =
    | Edit(name: string, imports: seq<VS.ImportSpec>, source: Files)
    | Update(name: string, resolved: bool)
    | Freeze(name: string, resolved: bool, imported: bool)

  /** An update merges the sources over `current` and stamps it; nothing is deleted. */
  function Updated(t: Tools, m: Module): Module {
    var files := if m.current.None? then m.source else m.current.value.files + m.source;
    m.(current := Some(Snapshot(files, Some(Stamp(t, files, VS.NextVersion(m.def))))))
  }

  /** Once versions are frozen, the sources must be compatible with `current` before they are copied. */
  predicate MayUpdate(t: Tools, m: Module, resolved: bool) {
    m.current.Some? && m.frozen != map[] ==> resolved && t.compatible(m.current.value.files, m.source)
  }

  function Restamped(t: Tools, m: Module): Module
    requires m.current.Some?
  {
    var files := m.current.value.files;
    m.(current := Some(Snapshot(files, Some(Stamp(t, files, VS.NextVersion(m.def))))))
  }

  /** Whether `current` differs from the latest frozen version. */
  predicate HasDevelopment(t: Tools, m: Module)
    requires Dumps(m).Some? && m.current.Some?
  {
    var dumps := Dumps(m).value;
    |dumps| < 2 || !t.equal(dumps[|dumps| - 2].snapshot.files, m.current.value.files)
  }

  /** Whether a freeze goes all the way. */
  predicate Freezes(t: Tools, w: Workspace, op: Op) {
    op.Freeze? && op.name in w &&
    (var m := w[op.name];
     Validates(t, m, op.resolved) && m.current.Some? && op.imported && VS.ImportsKnown(Project(w), op.name) && HasDevelopment(t, m))
  }

  /** `current`, hash and all, becomes the next numbered directory, and the definition lists it. */
  function Frozen(t: Tools, w: Workspace, name: string): Module
    requires name in w && w[name].current.Some? && VS.ImportsKnown(Project(w), name)
  {
    var m := Restamped(t, w[name]);
    var v := VS.NextVersion(m.def);
    var there := if v in m.frozen then m.frozen[v].files else map[];
    m.(frozen := m.frozen[v := Snapshot(there + m.current.value.files, m.current.value.hash)],
       def := m.def.(versions := m.def.versions + [VS.RecordedImports(Project(w), name)]))
  }

  function Apply(t: Tools, w: Workspace, op: Op): Workspace {
    match op
    case Edit(n, imports, source) =>
      w[n := if n in w then w[n].(def := w[n].def.(imports := imports), source := source)
             else Module(VS.Interface(imports, []), source, None, map[])]
    case Update(n, resolved) =>
      if n in w && MayUpdate(t, w[n], resolved) then w[n := Updated(t, w[n])] else w
    case Freeze(n, resolved, imported) =>
      if Freezes(t, w, op) then w[n := Frozen(t, w, n)]
      else if n in w && Validates(t, w[n], resolved) && w[n].current.Some? then w[n := Restamped(t, w[n])]
      else w
  }

  function Run(t: Tools, ops: seq<Op>): Workspace {
    if ops == [] then map[] else Apply(t, Run(t, ops[..|ops| - 1]), ops[|ops| - 1])
  }

  // ---- it refines the version store ---------------------------------------

  /** The definitions alone. */
  function Project(w: Workspace): VS.Store {
    map n | n in w :: w[n].def
  }

  function Steps(t: Tools, w: Workspace, op: Op): seq<VS.Op> {
    match op
    case Edit(n, imports, _) => [VS.Edit(n, imports)]
    case Update(_, _) => []
    case Freeze(n, _, _) => if Freezes(t, w, op) then [VS.Freeze(n)] else []
  }

  /** The edits and successful freezes of a run. */
  function Trace(t: Tools, ops: seq<Op>): seq<VS.Op> {
    if ops == [] then []
    else Trace(t, ops[..|ops| - 1]) + Steps(t, Run(t, ops[..|ops| - 1]), ops[|ops| - 1])
  }

  lemma StepRefines(t: Tools, w: Workspace, op: Op)
    ensures var steps := Steps(t, w, op);
      Project(Apply(t, w, op)) == if steps == [] then Project(w) else VS.Apply(Project(w), steps[0])
  {
  }

  lemma {:induction false} RunRefines(t: Tools, ops: seq<Op>)
    ensures Project(Run(t, ops)) == VS.Run(map[], Trace(t, ops))
  {
    if ops != [] {
      var before, op := ops[..|ops| - 1], ops[|ops| - 1];
      var w := Run(t, before);
      RunRefines(t, before);
      StepRefines(t, w, op);
      var steps := Steps(t, w, op);
      var trace := Trace(t, before) + steps;
      if steps == [] {
        assert trace == Trace(t, before);
      } else {
        assert trace[..|trace| - 1] == Trace(t, before) && trace[|trace| - 1] == steps[0];
      }
    }
  }

  /** Whatever the commands, their order and their failures, frozen versions never form a cycle. */
  lemma FrozenVersionsAreAcyclic(t: Tools, ops: seq<Op>)
    ensures Acyclic(VS.FrozenGraph(Project(Run(t, ops))))
  {
    RunRefines(t, ops);
    VS.FrozenGraphIsAcyclic(Trace(t, ops));
  }

  // ---- what every command keeps -------------------------------------------

  /** Exactly the listed versions are on disk, every one with the right hash, each compatible with the next. */
  ghost predicate Sound(t: Tools, m: Module) {
    && (forall v :: v in m.frozen <==> 1 <= v <= |m.def.versions|)
    && (forall v :: v in m.frozen ==> m.frozen[v].hash == Some(Stamp(t, m.frozen[v].files, v)))
    && (forall v :: v in m.frozen && v > 1 ==> v - 1 in m.frozen && t.compatible(m.frozen[v - 1].files, m.frozen[v].files))
  }

  ghost predicate AllSound(t: Tools, w: Workspace) {
    forall n :: n in w ==> Sound(t, w[n])
  }

  /** A validated module with `current`: the latest frozen version, if any, is compatible with it. */
  lemma ValidatedCurrent(t: Tools, m: Module, resolved: bool)
    requires Sound(t, m) && Validates(t, m, resolved) && m.current.Some?
    ensures var n := |m.def.versions|; n > 0 ==> n in m.frozen && t.compatible(m.frozen[n].files, m.current.value.files)
  {
    var n := |m.def.versions|;
    if n > 0 {
      assert n in m.frozen;
      var dumps := Dumps(m).value;
      assert |dumps| == n + 1 && dumps[n - 1] == Dump(n, m.frozen[n]) && dumps[n] == Dump(n + 1, m.current.value);
      assert CompatibleAt(t, dumps, n);
    }
  }

  // ---- what a validation asks of any directories ---------------------------

  /** The hash is that of the files and the word of version `v`; only the last directory may lack one. */
  predicate HashAllowed(t: Tools, s: Snapshot, v: nat, last: bool) {
    match s.hash
    case None => last
    case Some(h) => h == t.hash(s.files, HashWord(v))
  }

  /** Version `v` is there, with its hash, and the version before it is compatible with it. */
  ghost predicate VersionIsGood(t: Tools, m: Module, v: nat) {
    && v in m.frozen && HashAllowed(t, m.frozen[v], v, v == |m.def.versions| && m.current.None?)
    && (v >= 2 ==> v - 1 in m.frozen && t.compatible(m.frozen[v - 1].files, m.frozen[v].files))
  }

  /** So is `current`, after the first `n` versions. */
  ghost predicate CurrentIsGood(t: Tools, m: Module, n: nat) {
    m.current.Some? ==>
      && HashAllowed(t, m.current.value, |m.def.versions| + 1, true)
      && (n >= 1 ==> n in m.frozen && t.compatible(m.frozen[n].files, m.current.value.files))
  }

  /** How many versions are looked at: those the definition lists, or none when no numbered directory exists. */
  function Looked(m: Module): nat {
    if m.frozen == map[] then 0 else |m.def.versions|
  }

  lemma {:induction false} DumpsLooked(m: Module)
    ensures Dumps(m).Some? <==> forall v :: 1 <= v <= Looked(m) ==> v in m.frozen
    ensures Dumps(m).Some? ==>
      var n, dumps := Looked(m), Dumps(m).value;
      && |dumps| == n + (if m.current.Some? then 1 else 0)
      && (m.current.Some? ==> dumps[n] == Dump(|m.def.versions| + 1, m.current.value))
      && forall i :: 0 <= i < n ==> i + 1 in m.frozen && dumps[i] == Dump(i + 1, m.frozen[i + 1])
  {
  }

  lemma {:induction false} DumpIsGood(t: Tools, m: Module, i: nat)
    requires Dumps(m).Some? && i < Looked(m) && i < |Dumps(m).value|
    ensures IntactAt(t, Dumps(m).value, i) && CompatibleAt(t, Dumps(m).value, i) <==> VersionIsGood(t, m, i + 1)
  {
    DumpsLooked(m);
    if i > 0 {
      assert i - 1 + 1 in m.frozen;
    }
  }

  lemma {:induction false} CurrentDumpIsGood(t: Tools, m: Module)
    requires Dumps(m).Some? && m.current.Some? && |Dumps(m).value| == Looked(m) + 1
    ensures IntactAt(t, Dumps(m).value, Looked(m)) && CompatibleAt(t, Dumps(m).value, Looked(m)) <==> CurrentIsGood(t, m, Looked(m))
  {
    DumpsLooked(m);
    if Looked(m) > 0 {
      assert Looked(m) - 1 + 1 in m.frozen;
    }
  }

  /** On any directories, sound or not: a validation succeeds exactly when every listed version and `current` are
      good, and the dependencies resolve once there are two directories to compare. */
  lemma {:induction false} ValidationMeaning(t: Tools, m: Module, resolved: bool)
    ensures Validates(t, m, resolved) <==>
      && (Looked(m) + (if m.current.Some? then 1 else 0) >= 2 ==> resolved)
      && (forall v :: 1 <= v <= Looked(m) ==> VersionIsGood(t, m, v))
      && CurrentIsGood(t, m, Looked(m))
  {
    DumpsLooked(m);
    if Dumps(m).Some? {
      var n, dumps := Looked(m), Dumps(m).value;
      forall i | 0 <= i < n ensures IntactAt(t, dumps, i) && CompatibleAt(t, dumps, i) <==> VersionIsGood(t, m, i + 1) {
        DumpIsGood(t, m, i);
      }
      if m.current.Some? {
        CurrentDumpIsGood(t, m);
      }
      GoodByVersion(t, m, dumps, n);
    } else {
      var v :| 1 <= v <= Looked(m) && v !in m.frozen;
      assert !VersionIsGood(t, m, v);
    }
  }

  lemma {:induction false} GoodByVersion(t: Tools, m: Module, dumps: seq<Dump>, n: nat)
    requires n <= |dumps| <= n + 1
    requires forall i :: 0 <= i < n ==> (IntactAt(t, dumps, i) && CompatibleAt(t, dumps, i) <==> VersionIsGood(t, m, i + 1))
    ensures (forall i :: 0 <= i < |dumps| ==> IntactAt(t, dumps, i) && CompatibleAt(t, dumps, i)) <==>
      (forall v :: 1 <= v <= n ==> VersionIsGood(t, m, v)) && (|dumps| > n ==> IntactAt(t, dumps, n) && CompatibleAt(t, dumps, n))
  {
    if forall i :: 0 <= i < |dumps| ==> IntactAt(t, dumps, i) && CompatibleAt(t, dumps, i) {
      forall v | 1 <= v <= n ensures VersionIsGood(t, m, v) {
        assert IntactAt(t, dumps, v - 1);
      }
    }
    if (forall v :: 1 <= v <= n ==> VersionIsGood(t, m, v)) && (|dumps| > n ==> IntactAt(t, dumps, n) && CompatibleAt(t, dumps, n)) {
      forall i | 0 <= i < |dumps| ensures IntactAt(t, dumps, i) && CompatibleAt(t, dumps, i) {
        if i < n {
          assert VersionIsGood(t, m, i + 1);
        }
      }
    }
  }

  /** On sound directories it comes down to `current`. */
  lemma {:induction false} ValidationOutcome(t: Tools, m: Module, resolved: bool)
    requires Sound(t, m)
    ensures var n := |m.def.versions|;
      Validates(t, m, resolved) <==> (n + (if m.current.Some? then 1 else 0) >= 2 ==> resolved) && CurrentIsGood(t, m, n)
  {
    ValidationMeaning(t, m, resolved);
    if |m.def.versions| > 0 {
      assert |m.def.versions| in m.frozen;
    }
  }

  lemma FrozenIsSound(t: Tools, w: Workspace, op: Op)
    requires Freezes(t, w, op) && Sound(t, w[op.name])
    ensures Sound(t, Frozen(t, w, op.name))
    ensures var m, m' := w[op.name], Frozen(t, w, op.name);
      forall v :: v in m.frozen ==> v in m'.frozen && m'.frozen[v] == m.frozen[v]
  {
    ValidatedCurrent(t, w[op.name], op.resolved);
    FrozenDirectories(t, w, op);
    OneMoreIsSound(t, w[op.name], Frozen(t, w, op.name), w[op.name].current.value.files);
  }

  lemma {:induction false} FrozenDirectories(t: Tools, w: Workspace, op: Op)
    requires Freezes(t, w, op) && Sound(t, w[op.name])
    ensures var m, m' := w[op.name], Frozen(t, w, op.name);
      var v, files := VS.NextVersion(m.def), m.current.value.files;
      v !in m.frozen && |m'.def.versions| == v && m'.frozen == m.frozen[v := Snapshot(files, Some(Stamp(t, files, v)))]
  {
    assert map[] + w[op.name].current.value.files == w[op.name].current.value.files;
  }

  lemma {:induction false} OneMoreIsSound(t: Tools, m: Module, m': Module, files: Files)
    requires Sound(t, m) && |m'.def.versions| == |m.def.versions| + 1
    requires var v := |m'.def.versions|; m'.frozen == m.frozen[v := Snapshot(files, Some(Stamp(t, files, v)))]
    requires var n := |m.def.versions|; n > 0 ==> n in m.frozen && t.compatible(m.frozen[n].files, files)
    ensures Sound(t, m')
  {
    var n := |m.def.versions|;
    forall v | v in m'.frozen && v > 1
      ensures v - 1 in m'.frozen && t.compatible(m'.frozen[v - 1].files, m'.frozen[v].files)
    {
      if v == n + 1 {
        assert v - 1 == n && n in m.frozen;
      } else {
        assert v in m.frozen && v - 1 in m.frozen;
      }
    }
  }

  lemma StepKeepsSound(t: Tools, w: Workspace, op: Op)
    requires AllSound(t, w)
    ensures AllSound(t, Apply(t, w, op)) && Unchanged(w, Apply(t, w, op))
  {
    if Freezes(t, w, op) {
      FreezeKeepsFrozen(t, w, op);
    } else {
      OthersKeepFrozen(t, w, op);
    }
  }

  lemma FreezeKeepsFrozen(t: Tools, w: Workspace, op: Op)
    requires AllSound(t, w) && Freezes(t, w, op)
    ensures AllSound(t, Apply(t, w, op)) && Unchanged(w, Apply(t, w, op))
  {
    FrozenIsSound(t, w, op);
    OneModuleChanges(t, w, op.name, Frozen(t, w, op.name));
    assert Apply(t, w, op) == w[op.name := Frozen(t, w, op.name)];
  }

  lemma {:induction false} OneModuleChanges(t: Tools, w: Workspace, n: string, m: Module)
    requires n in w && AllSound(t, w) && Sound(t, m) && forall v :: v in w[n].frozen ==> v in m.frozen && m.frozen[v] == w[n].frozen[v]
    ensures AllSound(t, w[n := m]) && Unchanged(w, w[n := m])
  {
  }

  lemma OthersKeepFrozen(t: Tools, w: Workspace, op: Op)
    requires AllSound(t, w) && !Freezes(t, w, op)
    ensures AllSound(t, Apply(t, w, op)) && Unchanged(w, Apply(t, w, op))
  {
    var w' := Apply(t, w, op);
    forall n | n in w' ensures if n in w then w'[n].frozen == w[n].frozen && w'[n].def.versions == w[n].def.versions
                                else w'[n].frozen == map[] && w'[n].def.versions == []
    {
    }
    forall n | n in w' ensures Sound(t, w'[n]) {
      assert n in w ==> Sound(t, w[n]);
    }
  }

  lemma UnchangedTransitive(a: Workspace, b: Workspace, c: Workspace)
    requires Unchanged(a, b) && Unchanged(b, c)
    ensures Unchanged(a, c)
  {
  }

  /** Every numbered directory is still there, byte for byte. */
  ghost predicate Unchanged(w: Workspace, w': Workspace) {
    forall n :: n in w ==> n in w' && forall v :: v in w[n].frozen ==> v in w'[n].frozen && w'[n].frozen[v] == w[n].frozen[v]
  }

  lemma {:induction false} RunIsSound(t: Tools, ops: seq<Op>)
    ensures AllSound(t, Run(t, ops))
  {
    if ops != [] {
      RunIsSound(t, ops[..|ops| - 1]);
      StepKeepsSound(t, Run(t, ops[..|ops| - 1]), ops[|ops| - 1]);
    }
  }

  /** Frozen directories never change, however the run goes on. */
  lemma {:induction false} FrozenNeverChanges(t: Tools, ops: seq<Op>, k: nat)
    requires k <= |ops|
    ensures Unchanged(Run(t, ops[..k]), Run(t, ops))
    decreases |ops| - k
  {
    if k == |ops| {
      assert ops[..k] == ops;
    } else {
      var now, next := ops[..k], ops[..k + 1];
      assert next[..k] == now;
      assert Run(t, next) == Apply(t, Run(t, now), ops[k]);
      RunIsSound(t, now);
      StepKeepsSound(t, Run(t, now), ops[k]);
      FrozenNeverChanges(t, ops, k + 1);
      UnchangedTransitive(Run(t, now), Run(t, next), Run(t, ops));
    }
  }

  /** In every state a run reaches: each frozen version passes its hash check, and every older frozen
      version is compatible with every newer one. */
  lemma FrozenVersionsStayGood(t: Tools, ops: seq<Op>, n: string, v: nat, u: nat)
    requires Transitive(t) && n in Run(t, ops)
    ensures var m := Run(t, ops)[n];
      && (v in m.frozen <==> 1 <= v <= |m.def.versions|)
      && (v in m.frozen ==> m.frozen[v].hash == Some(Stamp(t, m.frozen[v].files, v)))
      && (v in m.frozen && u in m.frozen && v < u ==> t.compatible(m.frozen[v].files, m.frozen[u].files))
  {
    RunIsSound(t, ops);
    var m := Run(t, ops)[n];
    assert Sound(t, m);
    if v in m.frozen && u in m.frozen && v < u {
      OlderIsCompatible(t, m, v, u);
    }
  }

  lemma {:induction false} OlderIsCompatible(t: Tools, m: Module, v: nat, u: nat)
    requires Transitive(t) && Sound(t, m) && v in m.frozen && u in m.frozen && v < u
    ensures t.compatible(m.frozen[v].files, m.frozen[u].files)
    decreases u
  {
    assert u - 1 in m.frozen && t.compatible(m.frozen[u - 1].files, m.frozen[u].files);
    if v < u - 1 {
      OlderIsCompatible(t, m, v, u - 1);
    }
  }

  // ---- after a freeze -----------------------------------------------------

  lemma HashWordsDiffer(v: nat)
    requires v >= 1
    ensures HashWord(v) != HashWord(v + 1)
  {
    if v > 1 {
      NumberOfDecimal(v - 1);
      NumberOfDecimal(v);
    } else {
      assert HashWord(2) == Decimal(1) == "1";
      assert |"latest-version"| == 14;
    }
  }

  lemma DumpsAfterFreeze(t: Tools, w: Workspace, op: Op)
    requires Freezes(t, w, op) && Sound(t, w[op.name])
    ensures var m', files, v := Frozen(t, w, op.name), w[op.name].current.value.files, VS.NextVersion(w[op.name].def);
      && VS.NextVersion(m'.def) == v + 1 && Sound(t, m') && v in m'.frozen && m'.frozen[v].files == files
      && Dumps(m').Some? && |Dumps(m').value| == v + 1
      && (forall i :: 0 <= i < v ==> i + 1 in m'.frozen && Dumps(m').value[i] == Dump(i + 1, m'.frozen[i + 1]))
      && Dumps(m').value[v] == Dump(v + 1, Snapshot(files, Some(Stamp(t, files, v))))
  {
    FrozenIsSound(t, w, op);
    assert VS.NextVersion(w[op.name].def) !in w[op.name].frozen;
    assert map[] + w[op.name].current.value.files == w[op.name].current.value.files;
  }

  lemma ValidatesAfterFreeze(t: Tools, w: Workspace, op: Op)
    requires Freezes(t, w, op) && Sound(t, w[op.name])
    ensures var files, v := w[op.name].current.value.files, VS.NextVersion(w[op.name].def);
      && (Validates(t, Frozen(t, w, op.name), true) <==> Stamp(t, files, v) == Stamp(t, files, v + 1) && t.compatible(files, files))
      && (Stamp(t, files, v) != Stamp(t, files, v + 1) ==> !Validates(t, Frozen(t, w, op.name), false))
  {
    var m', n := Frozen(t, w, op.name), op.name;
    var files, v := w[n].current.value.files, VS.NextVersion(w[n].def);
    DumpsAfterFreeze(t, w, op);
    var dumps := Dumps(m').value;
    assert IntactAt(t, dumps, v) <==> Stamp(t, files, v) == Stamp(t, files, v + 1);
    assert CompatibleAt(t, dumps, v) <==> t.compatible(files, files) by {
      assert dumps[v - 1] == Dump(v, m'.frozen[v]);
    }
    forall i | 0 <= i < v ensures IntactAt(t, dumps, i) && CompatibleAt(t, dumps, i) {
      assert dumps[i] == Dump(i + 1, m'.frozen[i + 1]);
      assert i > 0 ==> dumps[i - 1] == Dump(i, m'.frozen[i]);
    }
  }

  /** The stamp of `current` names the version before, so right after a freeze `current` validates
      exactly when the hash does not tell the two stamps apart; when it does, another freeze has no
      effect. */
  lemma FreezeNeedsUpdate(t: Tools, w: Workspace, op: Op, resolved: bool, imported: bool)
    requires Freezes(t, w, op) && AllSound(t, w)
    ensures var w', n := Apply(t, w, op), op.name;
      var files, v := w[n].current.value.files, VS.NextVersion(w[n].def);
      && (Validates(t, w'[n], true) <==> Stamp(t, files, v) == Stamp(t, files, v + 1) && t.compatible(files, files))
      && (Stamp(t, files, v) != Stamp(t, files, v + 1) ==> Apply(t, w', Freeze(n, resolved, imported)) == w')
  {
    ValidatesAfterFreeze(t, w, op);
    assert Apply(t, w, op)[op.name] == Frozen(t, w, op.name);
  }

  // ---- a stale stamp ------------------------------------------------------

  /** `current` bears a stamp that is not the one of the next version. */
  predicate Stale(t: Tools, m: Module) {
    m.current.Some? && m.current.value.hash.Some? && m.current.value.hash.value != Stamp(t, m.current.value.files, VS.NextVersion(m.def))
  }

  lemma {:induction false} StaleIsInvalid(t: Tools, m: Module, resolved: bool)
    requires Stale(t, m)
    ensures !Validates(t, m, resolved)
  {
    if Dumps(m).Some? {
      var dumps := Dumps(m).value;
      assert dumps[|dumps| - 1] == Dump(VS.NextVersion(m.def), m.current.value);
      assert !IntactAt(t, dumps, |dumps| - 1);
    }
  }

  /** Two states of a module that differ at most in what is being edited. */
  predicate SameDirectories(m: Module, m': Module) {
    m'.current == m.current && m'.frozen == m.frozen && m'.def.versions == m.def.versions
  }

  lemma {:induction false} StaleStep(t: Tools, w: Workspace, op: Op, n: string)
    requires n in w && Stale(t, w[n]) && !(op.Update? && op.name == n)
    ensures n in Apply(t, w, op) && SameDirectories(w[n], Apply(t, w, op)[n])
  {
    if op.Freeze? && op.name == n {
      StaleIsInvalid(t, w[n], op.resolved);
    }
  }

  /** A stale stamp survives every command but an update of that interface, and so do all its directories. */
  lemma {:induction false} StaleUntilUpdate(t: Tools, ops: seq<Op>, k: nat, n: string)
    requires k <= |ops| && n in Run(t, ops[..k]) && Stale(t, Run(t, ops[..k])[n])
    requires forall i :: k <= i < |ops| ==> !(ops[i].Update? && ops[i].name == n)
    ensures n in Run(t, ops) && SameDirectories(Run(t, ops[..k])[n], Run(t, ops)[n])
    decreases |ops|
  {
    if k == |ops| {
      assert ops[..k] == ops;
    } else {
      var before, op := ops[..|ops| - 1], ops[|ops| - 1];
      assert before[..k] == ops[..k];
      StaleUntilUpdate(t, before, k, n);
      StaleStep(t, Run(t, before), op, n);
    }
  }

  /** After a freeze, until the next update of that interface: unless the hash confuses the two words, no
      command changes any of its directories, and validation fails. */
  lemma {:induction false} NothingUntilUpdate(t: Tools, ops: seq<Op>, k: nat, resolved: bool)
    requires k < |ops| && Freezes(t, Run(t, ops[..k]), ops[k])
    requires var m := Run(t, ops[..k])[ops[k].name];
      Stamp(t, m.current.value.files, VS.NextVersion(m.def)) != Stamp(t, m.current.value.files, VS.NextVersion(m.def) + 1)
    requires forall i :: k < i < |ops| ==> !(ops[i].Update? && ops[i].name == ops[k].name)
    ensures var n := ops[k].name;
      && n in Run(t, ops) && SameDirectories(Frozen(t, Run(t, ops[..k]), n), Run(t, ops)[n])
      && !Validates(t, Run(t, ops)[n], resolved)
  {
    var n, w := ops[k].name, Run(t, ops[..k]);
    assert ops[..k + 1][..k] == ops[..k] && ops[..k + 1][k] == ops[k];
    assert Run(t, ops[..k + 1]) == w[n := Frozen(t, w, n)];
    StaleUntilUpdate(t, ops, k + 1, n);
    StaleIsInvalid(t, Run(t, ops)[n], resolved);
  }

  // ---- an update that fails -----------------------------------------------

  lemma {:induction false} DumpsAfterUpdate(t: Tools, m: Module)
    requires Sound(t, m)
    ensures var m', n := Updated(t, m), |m.def.versions|;
      && Dumps(m').Some? && |Dumps(m').value| == n + 1 && Dumps(m').value[n] == Dump(n + 1, m'.current.value)
      && forall i :: 0 <= i < n ==> i + 1 in m.frozen && Dumps(m').value[i] == Dump(i + 1, m.frozen[i + 1])
  {
    var n := |m.def.versions|;
    assert n > 0 ==> 1 in m.frozen;
    assert m.frozen != map[] ==> exists v :: v in m.frozen;
  }

  /** Once its files are copied, an update validates exactly when the latest frozen version, if there is one,
      is compatible with all that `current` then holds; the check before the copy compares other files. */
  lemma {:induction false} UpdateValidates(t: Tools, m: Module, after: bool)
    requires Sound(t, m)
    ensures var m', n := Updated(t, m), |m.def.versions|;
      Validates(t, m', after) <==> (n > 0 ==> after && n in m.frozen && t.compatible(m.frozen[n].files, m'.current.value.files))
  {
    var m', n := Updated(t, m), |m.def.versions|;
    DumpsAfterUpdate(t, m);
    var dumps := Dumps(m').value;
    assert IntactAt(t, dumps, n);
    forall i | 0 <= i < n ensures IntactAt(t, dumps, i) && CompatibleAt(t, dumps, i) {
      assert dumps[i] == Dump(i + 1, m.frozen[i + 1]);
      assert i > 0 ==> dumps[i - 1] == Dump(i, m.frozen[i]);
    }
    if n > 0 {
      assert dumps[n - 1] == Dump(n, m.frozen[n]);
      assert CompatibleAt(t, dumps, n) <==> t.compatible(m.frozen[n].files, m'.current.value.files);
    }
  }

  /** In every state a run reaches: what an update leaves, and whether it then validates. */
  lemma {:induction false} UpdateOutcome(t: Tools, ops: seq<Op>, n: string, before: bool, after: bool)
    requires n in Run(t, ops) && MayUpdate(t, Run(t, ops)[n], before)
    ensures var m := Run(t, ops)[n];
      && Apply(t, Run(t, ops), Update(n, before))[n] == Updated(t, m)
      && (Validates(t, Updated(t, m), after) <==>
            (|m.def.versions| > 0 ==>
               after && |m.def.versions| in m.frozen && t.compatible(m.frozen[|m.def.versions|].files, Updated(t, m).current.value.files)))
  {
    RunIsSound(t, ops);
    UpdateValidates(t, Run(t, ops)[n], after);
  }

  /** A check that lets a release have one file. */
  const ONE_FILE: Tools := Tools((f: Files, word: string) => word, (f: Files, g: Files) => |g| <= 1, (f: Files, g: Files) => f == g)

  lemma {:induction false} TwoFiles(a: string, b: string, x: string)
    requires a != b
    ensures map[a := x] + map[b := x] == map[a := x, b := x] && |map[a := x, b := x]| == 2 && |map[b := x]| == 1
  {
    var files := map[a := x, b := x];
    assert files.Keys == {a, b} && |files| == |files.Keys|;
    assert map[b := x].Keys == {b};
  }

  /** A type that moves to another file passes the check before the copy; the copy keeps the old file beside
      the new one, and `current` no longer validates. */
  lemma {:induction false} MovedFileFails(m: Module, a: string, b: string, x: string)
    requires a != b && Sound(ONE_FILE, m) && |m.def.versions| > 0
    requires m.current.Some? && m.current.value.files == map[a := x] && m.source == map[b := x]
    ensures MayUpdate(ONE_FILE, m, true) && !Validates(ONE_FILE, Updated(ONE_FILE, m), true)
  {
    UpdateValidates(ONE_FILE, m, true);
    TwoFiles(a, b, x);
  }

  lemma {:induction false} RunStep(t: Tools, ops: seq<Op>, op: Op)
    ensures Run(t, ops + [op]) == Apply(t, Run(t, ops), op)
  {
    assert (ops + [op])[..|ops|] == ops;
  }

  /** For instance, after `hal` was frozen with its type in one file and the type moved to another. */
  lemma {:induction false} MovedFileRun()
    ensures var ops := [Edit("hal", [], map["A.aidl" := "x"]), Update("hal", true), Freeze("hal", true, true), Edit("hal", [], map["B.aidl" := "x"])];
      && "hal" in Run(ONE_FILE, ops) && MayUpdate(ONE_FILE, Run(ONE_FILE, ops)["hal"], true)
      && !Validates(ONE_FILE, Updated(ONE_FILE, Run(ONE_FILE, ops)["hal"]), true)
  {
    var t, f := ONE_FILE, map["A.aidl" := "x"];
    var a, b, c, d := Edit("hal", [], f), Update("hal", true), Freeze("hal", true, true), Edit("hal", [], map["B.aidl" := "x"]);
    RunStep(t, [], a);
    RunStep(t, [a], b);
    RunStep(t, [a, b], c);
    RunStep(t, [a, b, c], d);
    assert [] + [a] == [a] && [a] + [b] == [a, b] && [a, b] + [c] == [a, b, c] && [a, b, c] + [d] == [a, b, c, d];
    FirstFreeze(f, Run(t, [a, b]));
    RunIsSound(t, [a, b, c, d]);
    MovedFileFails(Run(t, [a, b, c, d])["hal"], "A.aidl", "B.aidl", "x");
  }

  lemma {:induction false} FirstFreeze(f: Files, w: Workspace)
    requires w == map["hal" := Updated(ONE_FILE, Module(VS.Interface([], []), f, None, map[]))]
    ensures Freezes(ONE_FILE, w, Freeze("hal", true, true))
  {
    var m := w["hal"];
    assert Dumps(m) == Some([Dump(1, m.current.value)]);
    assert Project(w)["hal"] == m.def;
  }

  // ---- what an update copies ----------------------------------------------

  /** An edit sets the sources and the imports, and nothing else. */
  lemma {:induction false} EditSets(t: Tools, w: Workspace, n: string, imports: seq<VS.ImportSpec>, source: Files)
    ensures var w' := Apply(t, w, Edit(n, imports, source));
      && w'.Keys == w.Keys + {n} && (forall o :: o in w && o != n ==> w'[o] == w[o])
      && w'[n].source == source && w'[n].def.imports == imports
      && (if n in w then SameDirectories(w[n], w'[n]) else w'[n].current == None && w'[n].frozen == map[] && w'[n].def.versions == [])
  {
  }

  /** An update is refused, and then changes nothing, exactly when versions are frozen, `current` exists, and
      the dependencies do not resolve or the sources are not compatible with `current`.  Otherwise every
      source file is in `current` with the text of the source, every other file of `current` is as it was,
      there are no more, and the hash is the one of these files; nothing else changes. */
  lemma {:induction false} UpdateCopies(t: Tools, w: Workspace, n: string, resolved: bool)
    requires n in w
    ensures var m, w' := w[n], Apply(t, w, Update(n, resolved));
      if m.current.Some? && m.frozen != map[] && !(resolved && t.compatible(m.current.value.files, m.source)) then w' == w
      else
        && w'.Keys == w.Keys && (forall o :: o in w && o != n ==> w'[o] == w[o])
        && w'[n].def == m.def && w'[n].source == m.source && w'[n].frozen == m.frozen && w'[n].current.Some?
        && var held := if m.current.Some? then m.current.value.files else map[];
           var files := w'[n].current.value.files;
           && files.Keys == held.Keys + m.source.Keys
           && (forall p :: p in m.source ==> files[p] == m.source[p])
           && (forall p :: p in held && p !in m.source ==> files[p] == held[p])
           && w'[n].current.value.hash == Some(t.hash(files, HashWord(|m.def.versions| + 1)))
  {
  }

  /** All sources are in `current` as they are. */
  ghost predicate InCurrent(m: Module, source: Files) {
    m.source == source && m.current.Some? && forall p :: p in source ==> p in m.current.value.files && m.current.value.files[p] == source[p]
  }

  lemma {:induction false} StepKeepsInCurrent(t: Tools, w: Workspace, op: Op, n: string, source: Files)
    requires n in w && InCurrent(w[n], source) && !(op.Edit? && op.name == n)
    ensures n in Apply(t, w, op) && InCurrent(Apply(t, w, op)[n], source)
  {
  }

  lemma {:induction false} RunKeepsInCurrent(t: Tools, ops: seq<Op>, k: nat, n: string, source: Files)
    requires k <= |ops| && n in Run(t, ops[..k]) && InCurrent(Run(t, ops[..k])[n], source)
    requires forall i :: k <= i < |ops| ==> !(ops[i].Edit? && ops[i].name == n)
    ensures n in Run(t, ops) && InCurrent(Run(t, ops)[n], source)
    decreases |ops|
  {
    if k == |ops| {
      assert ops[..k] == ops;
    } else {
      var before := ops[..|ops| - 1];
      assert before[..k] == ops[..k];
      RunKeepsInCurrent(t, before, k, n, source);
      StepKeepsInCurrent(t, Run(t, before), ops[|ops| - 1], n, source);
    }
  }

  lemma {:induction false} FreezeStoresCurrent(t: Tools, w: Workspace, op: Op)
    requires Freezes(t, w, op) && Sound(t, w[op.name])
    ensures var m, w' := w[op.name], Apply(t, w, op); var v := |m.def.versions| + 1;
      v in w'[op.name].frozen && w'[op.name].frozen[v].files == m.current.value.files
  {
    FrozenDirectories(t, w, op);
  }

  /** In every run: a freeze that completes after an update of the interface, with no edit of it in between,
      stores the text of every source file in the new numbered directory. */
  lemma {:induction false} FreezeStoresSources(t: Tools, ops: seq<Op>, k: nat, p: string)
    requires k < |ops| - 1 && ops[k].Update? && ops[k].name in Run(t, ops[..k]) && MayUpdate(t, Run(t, ops[..k])[ops[k].name], ops[k].resolved)
    requires forall i :: k < i < |ops| ==> !(ops[i].Edit? && ops[i].name == ops[k].name)
    requires var last := ops[|ops| - 1]; last.Freeze? && last.name == ops[k].name && Freezes(t, Run(t, ops[..|ops| - 1]), last)
    requires p in Run(t, ops[..k])[ops[k].name].source
    ensures var n := ops[k].name;
      && n in Run(t, ops) && var v := |Run(t, ops)[n].def.versions|;
      && v in Run(t, ops)[n].frozen && p in Run(t, ops)[n].frozen[v].files
      && Run(t, ops)[n].frozen[v].files[p] == Run(t, ops[..k])[n].source[p]
  {
    var n, before, last := ops[k].name, ops[..|ops| - 1], ops[|ops| - 1];
    var source := Run(t, ops[..k])[n].source;
    assert ops[..k + 1][..k] == ops[..k] && ops[..k + 1][k] == ops[k];
    UpdateCopies(t, Run(t, ops[..k]), n, ops[k].resolved);
    assert InCurrent(Run(t, ops[..k + 1])[n], source);
    assert before[..k + 1] == ops[..k + 1];
    RunKeepsInCurrent(t, before, k + 1, n, source);
    RunIsSound(t, before);
    FreezeStoresCurrent(t, Run(t, before), last);
    FrozenDirectories(t, Run(t, before), last);
  }

  // ---- when a freeze makes a version --------------------------------------

  /** Whether the commands inside a freeze get as far as comparing `current` with the latest version. */
  predicate ReadyToFreeze(t: Tools, w: Workspace, n: string, resolved: bool, imported: bool) {
    n in w && w[n].current.Some? && Validates(t, w[n], resolved) && imported && VS.ImportsKnown(Project(w), n)
  }

  lemma {:induction false} LatestDump(t: Tools, m: Module)
    requires Sound(t, m) && m.current.Some? && |m.def.versions| > 0
    ensures |m.def.versions| in m.frozen && Dumps(m).Some? && |Dumps(m).value| == |m.def.versions| + 1
    ensures Dumps(m).value[|m.def.versions| - 1] == Dump(|m.def.versions|, m.frozen[|m.def.versions|])
  {
    assert 1 in m.frozen;
  }

  lemma {:induction false} FreezesWhenReady(t: Tools, w: Workspace, n: string, resolved: bool, imported: bool)
    requires n in w && Sound(t, w[n])
    ensures var m, k := w[n], |w[n].def.versions|;
      Freezes(t, w, Freeze(n, resolved, imported)) <==>
        ReadyToFreeze(t, w, n, resolved, imported) && (k == 0 || (k in m.frozen && !t.equal(m.frozen[k].files, m.current.value.files)))
  {
    if ReadyToFreeze(t, w, n, resolved, imported) && |w[n].def.versions| > 0 {
      LatestDump(t, w[n]);
    }
  }

  lemma {:induction false} FreezeAddsOne(t: Tools, w: Workspace, n: string, resolved: bool, imported: bool)
    requires n in w
    ensures var m, m' := w[n], Apply(t, w, Freeze(n, resolved, imported))[n];
      if Freezes(t, w, Freeze(n, resolved, imported)) then |m'.def.versions| == |m.def.versions| + 1 && |m.def.versions| + 1 in m'.frozen
      else m'.def.versions == m.def.versions && m'.frozen == m.frozen
  {
  }

  /** On every reachable workspace: a freeze that is ready makes a version exactly when nothing is frozen yet or
      the compiler tells `current` apart from the latest frozen version; one that is not makes none. */
  lemma {:induction false} FreezeMakesVersion(t: Tools, ops: seq<Op>, n: string, resolved: bool, imported: bool)
    requires n in Run(t, ops)
    ensures var m, m' := Run(t, ops)[n], Apply(t, Run(t, ops), Freeze(n, resolved, imported))[n];
      var k := |m.def.versions|;
      if ReadyToFreeze(t, Run(t, ops), n, resolved, imported) && (k == 0 || (k in m.frozen && !t.equal(m.frozen[k].files, m.current.value.files)))
      then |m'.def.versions| == k + 1 && k + 1 in m'.frozen
      else m'.def.versions == m.def.versions && m'.frozen == m.frozen
  {
    RunIsSound(t, ops);
    FreezesWhenReady(t, Run(t, ops), n, resolved, imported);
    FreezeAddsOne(t, Run(t, ops), n, resolved, imported);
  }

  /** The compiler tells neighbouring frozen versions apart. */
  ghost predicate NeighboursDiffer(t: Tools, m: Module) {
    forall v :: v in m.frozen && v + 1 in m.frozen ==> !t.equal(m.frozen[v].files, m.frozen[v + 1].files)
  }

  lemma {:induction false} FreezeKeepsNeighbours(t: Tools, w: Workspace, op: Op)
    requires Freezes(t, w, op) && Sound(t, w[op.name]) && NeighboursDiffer(t, w[op.name])
    ensures NeighboursDiffer(t, Frozen(t, w, op.name))
  {
    var m, m' := w[op.name], Frozen(t, w, op.name);
    var k := |m.def.versions|;
    FrozenDirectories(t, w, op);
    forall v | v in m'.frozen && v + 1 in m'.frozen ensures !t.equal(m'.frozen[v].files, m'.frozen[v + 1].files) {
      if v == k {
        assert v in m.frozen;
        LatestDump(t, m);
      } else {
        assert v in m.frozen && v + 1 in m.frozen;
      }
    }
  }

  lemma {:induction false} StepKeepsNeighbours(t: Tools, w: Workspace, op: Op, n: string)
    requires AllSound(t, w) && (forall o :: o in w ==> NeighboursDiffer(t, w[o])) && n in Apply(t, w, op)
    ensures NeighboursDiffer(t, Apply(t, w, op)[n])
  {
    if Freezes(t, w, op) && op.name == n {
      FreezeKeepsNeighbours(t, w, op);
    } else if n in w {
      assert Apply(t, w, op)[n].frozen == w[n].frozen;
      assert NeighboursDiffer(t, w[n]);
    }
  }

  /** So no two neighbouring frozen versions are ever equal to the compiler. */
  lemma {:induction false} VersionsDiffer(t: Tools, ops: seq<Op>, n: string)
    requires n in Run(t, ops)
    ensures NeighboursDiffer(t, Run(t, ops)[n])
  {
    var before, op := ops[..|ops| - 1], ops[|ops| - 1];
    forall o | o in Run(t, before) ensures NeighboursDiffer(t, Run(t, before)[o]) {
      VersionsDiffer(t, before, o);
    }
    RunIsSound(t, before);
    StepKeepsNeighbours(t, Run(t, before), op, n);
  }

  /** A freeze that validates stamps `current` anew, with the word of the version it would become, whether or
      not a version comes of it, and leaves files, sources and import list alone; any other does nothing. */
  lemma {:induction false} FreezeStamps(t: Tools, w: Workspace, n: string, resolved: bool, imported: bool)
    ensures var w' := Apply(t, w, Freeze(n, resolved, imported));
      if n in w && w[n].current.Some? && Validates(t, w[n], resolved) then
        && w'.Keys == w.Keys && (forall o :: o in w && o != n ==> w'[o] == w[o])
        && var m, m', files := w[n], w'[n], w[n].current.value.files;
           && m'.source == m.source && m'.def.imports == m.def.imports
           && m'.current == Some(Snapshot(files, Some(t.hash(files, HashWord(|m.def.versions| + 1)))))
      else w' == w
  {
  }

  /** The first version is hashed with a fixed word, every other with the numeral of the one before. */
  lemma {:induction false} HashWords(v: nat)
    ensures v <= 1 ==> HashWord(v) == "latest-version"
    ensures v > 1 ==> Number(HashWord(v)) == v - 1 && forall i :: 0 <= i < |HashWord(v)| ==> '0' <= HashWord(v)[i] <= '9'
  {
    if v > 1 {
      NumberOfDecimal(v - 1);
      DecimalIsDigits(v - 1);
    }
  }

  // ---- the commands -------------------------------------------------------

  class ReleaseTool {
    const tools: Tools
    var modules: Workspace

    constructor (tools: Tools)
      ensures this.tools == tools && modules == map[]
    {
      this.tools, this.modules := tools, map[];
    }

    method ListDumps(m: Module) returns (dumps: Option<seq<Dump>>)
      ensures dumps == Dumps(m)
    {
      var list := [];
      if m.frozen != map[] {
        for v := 1 to |m.def.versions| + 1
          invariant |list| == v - 1 && forall u :: 1 <= u < v ==> u in m.frozen && list[u - 1] == Dump(u, m.frozen[u])
        {
          if v !in m.frozen {
            return None;
          }
          list := list + [Dump(v, m.frozen[v])];
        }
      }
      if m.current.Some? {
        list := list + [Dump(VS.NextVersion(m.def), m.current.value)];
      }
      assert Dumps(m).Some? && list == Dumps(m).value;
      dumps := Some(list);
    }

    method ValidateInterface(m: Module, resolved: bool) returns (ok: bool)
      ensures ok == Validates(tools, m, resolved)
    {
      var found := ListDumps(m);
      if found.None? {
        return false;
      }
      var dumps := found.value;
      for i := 0 to |dumps|
        invariant i > 1 ==> resolved
        invariant forall j :: 0 <= j < i ==> IntactAt(tools, dumps, j) && CompatibleAt(tools, dumps, j)
      {
        var snapshot := dumps[i].snapshot;
        var intact;
        if snapshot.hash.Some? {
          intact := Stamp(tools, snapshot.files, dumps[i].version) == snapshot.hash.value;
        } else {
          intact := i == |dumps| - 1;
        }
        assert intact == IntactAt(tools, dumps, i);
        if !intact {
          return false;
        }
        if i > 0 && !(resolved && tools.compatible(dumps[i - 1].snapshot.files, snapshot.files)) {
          assert !resolved || !CompatibleAt(tools, dumps, i);
          return false;
        }
      }
      ok := true;
    }

    /** Copies the sources into `current`; a failed validation afterwards does not undo the copy.  The
        dependencies are resolved once before the copy and once after it. */
    method UpdateApi(name: string, before: bool, after: bool) returns (ok: bool)
      requires name in modules
      modifies this
      ensures modules == Apply(tools, old(modules), Update(name, before))
      ensures ok <==> MayUpdate(tools, old(modules)[name], before) && Validates(tools, modules[name], after)
    {
      var m := modules[name];
      if m.current.Some? && m.frozen != map[] {
        if !before || !tools.compatible(m.current.value.files, m.source) {
          return false;
        }
      }
      var files := m.source;
      if m.current.Some? {
        files := m.current.value.files + files;
      }
      m := m.(current := Some(Snapshot(files, Some(Stamp(tools, files, VS.NextVersion(m.def))))));
      modules := modules[name := m];
      ok := ValidateInterface(m, after);
    }

    /** The definition's version list with the new entry at its end. */
    method AppendVersion(name: string) returns (versions: seq<seq<VS.Target>>)
      requires VS.ImportsKnown(Project(modules), name)
      ensures versions == modules[name].def.versions + [VS.RecordedImports(Project(modules), name)]
    {
      var def := modules[name].def;
      var imports := [];
      for i := 0 to |def.imports|
        invariant imports == VS.RecordedImports(Project(modules), name)[..i]
      {
        var imported := modules[def.imports[i].name].def;
        imports := imports + [VS.Target(def.imports[i].name, VS.LatestVersion(imported))];
      }
      versions := [];
      for i := 0 to |def.versions|
        invariant versions == def.versions[..i]
      {
        versions := versions + [def.versions[i]];
      }
      assert def.versions[..|def.versions|] == def.versions;
      assert imports == VS.RecordedImports(Project(modules), name);
      versions := versions + [imports];
    }

    method FreezeApi(name: string, resolved: bool, imported: bool)
      requires name in modules
      modifies this
      ensures modules == Apply(tools, old(modules), Freeze(name, resolved, imported))
    {
      var m := modules[name];
      var valid := ValidateInterface(m, resolved);
      if !valid || m.current.None? {
        return;
      }
      var development := HasDevelopment(tools, m);
      m := Restamped(tools, m);
      if !imported || !VS.ImportsKnown(Project(modules), name) || !development {
        modules := modules[name := m];
        return;
      }
      var versions := AppendVersion(name);
      var v := VS.NextVersion(m.def);
      var there := if v in m.frozen then m.frozen[v].files else map[];
      m := m.(frozen := m.frozen[v := Snapshot(there + m.current.value.files, m.current.value.hash)],
              def := m.def.(versions := versions));
      modules := modules[name := m];
    }
  }
}
