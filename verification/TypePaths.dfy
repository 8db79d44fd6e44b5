/** Where a declaration of a file ends up: the qualified name of a nested type, and when no two types
    share one. */
module TypePaths {
  import opened Basics
  import opened SurfaceModel
  import opened Headers
  import opened StatementSplitter
  import opened EnumBody
  import opened DeclarationParser
  import opened SourceDump
  import SurfaceDump

  // ---- what stands where --------------------------------------------------

  function JoinDots(parts: seq<string>): string {
    if parts == [] then "" else if |parts| == 1 then parts[0] else parts[0] + ("." + JoinDots(parts[1..]))
  }

  /** The package, unless it is empty, the enclosing types from the outside in, and the name. */
  function FullName(package: string, path: seq<string>): string {
    JoinDots(if package == "" then path else [package] + path)
  }

  predicate AllIdentifiers(path: seq<string>) {
    forall i :: 0 <= i < |path| ==> IsIdentifier(path[i])
  }

  /** The header declares a type of the name that `path` begins with. */
  predicate Heads(head: string, path: seq<string>) {
    path != [] && ReadDeclaration(Trim(head)).Some? && ReadDeclaration(Trim(head)).value.name == path[0]
  }

  /** The tree declares `d` under the names of `path`: the enclosing types, then its own. */
  predicate DeclaredAt(b: Body, path: seq<string>, d: TypeDecl)
    decreases b, 0
  {
    match b
    case Tail(_) => false
    case Statement(_, rest) => DeclaredAt(rest, path, d)
    case Nested(head, inner, rest) => DeclaredBy(head, inner, path, d) || DeclaredAt(rest, path, d)
    case Opaque(head, t, rest) => DeclaredEnum(head, t, path, d) || DeclaredAt(rest, path, d)
  }

  predicate DeclaredBy(head: string, inner: Body, path: seq<string>, d: TypeDecl)
    decreases inner, 1
  {
    Heads(head, path) && if |path| == 1 then Describes(head, TreeLines(inner), d) else DeclaredAt(inner, path[1..], d)
  }

  predicate DeclaredEnum(head: string, t: string, path: seq<string>, d: TypeDecl) {
    Heads(head, path) && |path| == 1 && EnumMembers(t).Some? && Describes(head, EnumMembers(t).value, d)
  }

  /** `d` is what the header says, its annotations sorted, with these members. */
  predicate Describes(head: string, members: seq<string>, d: TypeDecl)
    requires ReadDeclaration(Trim(head)).Some?
  {
    var h := ReadDeclaration(Trim(head)).value;
    d.kind == h.kind && d.oneway == h.oneway && d.annotations == SurfaceDump.SortAll(h.annotations) && d.members == members
  }

  /** In a file, a statement at the top may declare a type too, without structure. */
  predicate DeclaredInFile(b: Body, path: seq<string>, d: TypeDecl) {
    match b
    case Tail(t) => DeclaredForward(t, path, d)
    case Statement(t, rest) => DeclaredForward(t, path, d) || DeclaredInFile(rest, path, d)
    case Nested(head, inner, rest) => DeclaredBy(head, inner, path, d) || DeclaredInFile(rest, path, d)
    case Opaque(head, t, rest) => DeclaredEnum(head, t, path, d) || DeclaredInFile(rest, path, d)
  }

  predicate DeclaredForward(t: string, path: seq<string>, d: TypeDecl) {
    Trim(t) != "" && Heads(t, path) && |path| == 1 &&
    var h := ReadDeclaration(Trim(t)).value;
    d == TypeDecl(h.kind, false, SurfaceDump.SortAll(h.annotations), [])
  }

  // ---- siblings -----------------------------------------------------------

  function NameOf(head: string): set<string> {
    match ReadDeclaration(Trim(head))
    case None => {}
    case Some(h) => {h.name}
  }

  function ForwardName(t: string): set<string> {
    if Trim(t) == "" then {} else NameOf(t)
  }

  /** The names declared at the top level of a body. */
  function Siblings(b: Body): set<string> {
    match b
    case Tail(_) => {}
    case Statement(_, rest) => Siblings(rest)
    case Nested(head, _, rest) => NameOf(head) + Siblings(rest)
    case Opaque(head, _, rest) => NameOf(head) + Siblings(rest)
  }

  /** At every level, no name is declared twice. */
  predicate DistinctSiblings(b: Body) {
    match b
    case Tail(_) => true
    case Statement(_, rest) => DistinctSiblings(rest)
    case Nested(head, inner, rest) =>
      NameOf(head) !! Siblings(rest) && (NameOf(head) != {} ==> DistinctSiblings(inner)) && DistinctSiblings(rest)
    case Opaque(head, _, rest) => NameOf(head) !! Siblings(rest) && DistinctSiblings(rest)
  }

  function FileSiblings(b: Body): set<string> {
    match b
    case Tail(t) => ForwardName(t)
    case Statement(t, rest) => ForwardName(t) + FileSiblings(rest)
    case Nested(head, _, rest) => NameOf(head) + FileSiblings(rest)
    case Opaque(head, _, rest) => NameOf(head) + FileSiblings(rest)
  }

  predicate DistinctInFile(b: Body) {
    match b
    case Tail(_) => true
    case Statement(t, rest) => ForwardName(t) !! FileSiblings(rest) && DistinctInFile(rest)
    case Nested(head, inner, rest) =>
      NameOf(head) !! FileSiblings(rest) && (NameOf(head) != {} ==> DistinctSiblings(inner)) && DistinctInFile(rest)
    case Opaque(head, _, rest) => NameOf(head) !! FileSiblings(rest) && DistinctInFile(rest)
  }

  // ---- all declarations with their paths ----------------------------------

  datatype Placed = Placed(path: seq<string>, decl: TypeDecl)

  function Under(n: string, ps: seq<Placed>): (r: seq<Placed>)
    ensures |r| == |ps| && forall i :: 0 <= i < |ps| ==> r[i] == Placed([n] + ps[i].path, ps[i].decl)
  {
    seq(|ps|, i requires 0 <= i < |ps| => Placed([n] + ps[i].path, ps[i].decl))
  }

  function Paths(b: Body): seq<Placed>
    decreases b, 0
  {
    match b
    case Tail(_) => []
    case Statement(_, rest) => Paths(rest)
    case Nested(head, inner, rest) => NestedPaths(head, inner) + Paths(rest)
    case Opaque(head, t, rest) => OpaquePaths(head, t) + Paths(rest)
  }

  function NestedPaths(head: string, inner: Body): seq<Placed>
    decreases inner, 1
  {
    match ReadDeclaration(Trim(head))
    case None => []
    case Some(h) => Under(h.name, Paths(inner)) + [Placed([h.name], Declared(h, TreeLines(inner)))]
  }

  function OpaquePaths(head: string, t: string): seq<Placed> {
    match (ReadDeclaration(Trim(head)), EnumMembers(t))
    case (Some(h), Some(members)) => [Placed([h.name], Declared(h, members))]
    case _ => []
  }

  function ForwardPaths(t: string): seq<Placed> {
    if Trim(t) == "" then []
    else
      match ReadDeclaration(Trim(t))
      case None => []
      case Some(h) => [Placed([h.name], Declared(h.(oneway := false), []))]
  }

  function FilePaths(b: Body): seq<Placed> {
    match b
    case Tail(t) => ForwardPaths(t)
    case Statement(t, rest) => ForwardPaths(t) + FilePaths(rest)
    case Nested(head, inner, rest) => NestedPaths(head, inner) + FilePaths(rest)
    case Opaque(head, t, rest) => OpaquePaths(head, t) + FilePaths(rest)
  }

  /** The entries for declarations below the types `outer`. */
  function Named(ps: seq<Placed>, package: string, outer: seq<string>): (r: seq<Entry>)
    ensures |r| == |ps| && forall i :: 0 <= i < |ps| ==> r[i] == Entry(FullName(package, outer + ps[i].path), ps[i].decl)
  {
    seq(|ps|, i requires 0 <= i < |ps| => Entry(FullName(package, outer + ps[i].path), ps[i].decl))
  }

  // ---- entries bear the names of their paths ------------------------------

  lemma {:induction false} NamedBoth(a: seq<Placed>, b: seq<Placed>, package: string, outer: seq<string>)
    ensures Named(a + b, package, outer) == Named(a, package, outer) + Named(b, package, outer)
  {
  }

  lemma {:induction false} NamedUnder(n: string, ps: seq<Placed>, package: string, outer: seq<string>)
    ensures Named(Under(n, ps), package, outer) == Named(ps, package, outer + [n])
  {
    var l, r := Named(Under(n, ps), package, outer), Named(ps, package, outer + [n]);
    forall i | 0 <= i < |ps| ensures l[i] == r[i] {
      Regroup(outer, [n], ps[i].path);
    }
  }

  lemma {:induction false} JoinOneMore(parts: seq<string>, n: string)
    requires parts != []
    ensures JoinDots(parts + [n]) == JoinDots(parts) + ("." + n)
  {
    if |parts| > 1 {
      assert (parts + [n])[1..] == parts[1..] + [n];
      JoinOneMore(parts[1..], n);
      Regroup(parts[0], "." + JoinDots(parts[1..]), "." + n);
      Regroup(".", JoinDots(parts[1..]), "." + n);
    } else {
      assert (parts + [n])[1..] == [n];
    }
  }

  lemma {:induction false} JoinIsEmpty(parts: seq<string>)
    requires AllIdentifiers(parts)
    ensures JoinDots(parts) == "" <==> parts == []
  {
  }

  lemma {:induction false} DottedIsJoin(outer: seq<string>, n: string)
    requires AllIdentifiers(outer) && IsIdentifier(n)
    ensures Dotted(JoinDots(outer), n) == JoinDots(outer + [n])
  {
    JoinIsEmpty(outer);
    if outer != [] {
      JoinOneMore(outer, n);
    } else {
      assert outer + [n] == [n];
    }
  }

  lemma {:induction false} JoinAfter(package: string, outer: seq<string>)
    requires package != "" && AllIdentifiers(outer)
    ensures Dotted(package, JoinDots(outer)) == FullName(package, outer) && FullName(package, outer) != ""
  {
    JoinIsEmpty(outer);
    assert ([package] + outer)[1..] == outer;
    assert outer == [] ==> [package] + outer == [package];
  }

  /** The name that the parser computes is the path joined by dots. */
  lemma {:induction false} QualifiedIsFull(package: string, outer: seq<string>, n: string)
    requires AllIdentifiers(outer) && IsIdentifier(n)
    ensures QualifiedName(package, JoinDots(outer), n) == FullName(package, outer + [n])
  {
    if package == "" {
      DottedIsJoin(outer, n);
      JoinIsEmpty(outer);
    } else {
      JoinAfter(package, outer);
      JoinOneMore([package] + outer, n);
      Regroup([package], outer, [n]);
    }
  }

  lemma {:induction false} DeclaresIdentifier(header: string)
    requires ReadDeclaration(header).Some?
    ensures IsIdentifier(ReadDeclaration(header).value.name)
  {
    DeclarationIsValid(header);
  }

  lemma {:induction false} NamedOne(p: Placed, package: string, outer: seq<string>)
    ensures Named([p], package, outer) == [Entry(FullName(package, outer + p.path), p.decl)]
  {
  }

  lemma {:induction false} EntriesAreNamed(b: Body, package: string, outer: seq<string>)
    requires AllIdentifiers(outer)
    ensures Entries(b, package, JoinDots(outer)) == Named(Paths(b), package, outer)
    decreases b, 0
  {
    match b
    case Tail(_) =>
    case Statement(_, rest) => EntriesAreNamed(rest, package, outer);
    case Nested(head, inner, rest) =>
      NestedAreNamed(head, inner, package, outer);
      EntriesAreNamed(rest, package, outer);
      NamedBoth(NestedPaths(head, inner), Paths(rest), package, outer);
    case Opaque(head, t, rest) =>
      OpaqueAreNamed(head, t, package, outer);
      EntriesAreNamed(rest, package, outer);
      NamedBoth(OpaquePaths(head, t), Paths(rest), package, outer);
  }

  lemma {:induction false} NestedAreNamed(head: string, inner: Body, package: string, outer: seq<string>)
    requires AllIdentifiers(outer)
    ensures NestedEntries(head, inner, package, JoinDots(outer)) == Named(NestedPaths(head, inner), package, outer)
    decreases inner, 1
  {
    var d := ReadDeclaration(Trim(head));
    if d.Some? {
      var h := d.value;
      var p := Placed([h.name], Declared(h, TreeLines(inner)));
      DeclaresIdentifier(Trim(head));
      DottedIsJoin(outer, h.name);
      QualifiedIsFull(package, outer, h.name);
      EntriesAreNamed(inner, package, outer + [h.name]);
      NamedUnder(h.name, Paths(inner), package, outer);
      NamedBoth(Under(h.name, Paths(inner)), [p], package, outer);
      NamedOne(p, package, outer);
    }
  }

  lemma {:induction false} OpaqueAreNamed(head: string, t: string, package: string, outer: seq<string>)
    requires AllIdentifiers(outer)
    ensures OpaqueEntries(head, t, package, JoinDots(outer)) == Named(OpaquePaths(head, t), package, outer)
  {
    var d := ReadDeclaration(Trim(head));
    if d.Some? && EnumMembers(t).Some? {
      DeclaresIdentifier(Trim(head));
      QualifiedIsFull(package, outer, d.value.name);
      NamedOne(OpaquePaths(head, t)[0], package, outer);
    }
  }

  lemma {:induction false} ForwardAreNamed(t: string, package: string)
    ensures ForwardEntries(t, package) == Named(ForwardPaths(t), package, [])
  {
    if Trim(t) != "" && ReadDeclaration(Trim(t)).Some? {
      var n := ReadDeclaration(Trim(t)).value.name;
      DeclaresIdentifier(Trim(t));
      QualifiedIsFull(package, [], n);
      assert [] + [n] == [n];
      NamedOne(ForwardPaths(t)[0], package, []);
    }
  }

  lemma {:induction false} FileIsNamed(b: Body, package: string)
    ensures FileEntries(b, package) == Named(FilePaths(b), package, [])
  {
    match b
    case Tail(t) => ForwardAreNamed(t, package);
    case Statement(t, rest) =>
      ForwardAreNamed(t, package);
      FileIsNamed(rest, package);
      NamedBoth(ForwardPaths(t), FilePaths(rest), package, []);
    case Nested(head, inner, rest) =>
      NestedAreNamed(head, inner, package, []);
      FileIsNamed(rest, package);
      NamedBoth(NestedPaths(head, inner), FilePaths(rest), package, []);
    case Opaque(head, t, rest) =>
      OpaqueAreNamed(head, t, package, []);
      FileIsNamed(rest, package);
      NamedBoth(OpaquePaths(head, t), FilePaths(rest), package, []);
  }

  // ---- names determine paths ----------------------------------------------

  lemma {:induction false} JoinStarts(parts: seq<string>)
    requires parts != [] && AllIdentifiers(parts)
    ensures WordRun(JoinDots(parts)) == |parts[0]| && JoinDots(parts)[..|parts[0]|] == parts[0]
    ensures |parts| == 1 <==> |JoinDots(parts)| == |parts[0]|
    ensures |parts| > 1 ==> JoinDots(parts)[|parts[0]| + 1..] == JoinDots(parts[1..])
  {
    if |parts| == 1 {
      WordRunOf(parts[0], "");
      assert parts[0] + "" == parts[0];
    } else {
      WordRunOf(parts[0], "." + JoinDots(parts[1..]));
    }
  }

  /** Identifiers joined by dots can be told apart again. */
  lemma {:induction false} JoinIsInjective(a: seq<string>, b: seq<string>)
    requires AllIdentifiers(a) && AllIdentifiers(b) && JoinDots(a) == JoinDots(b)
    ensures a == b
  {
    JoinIsEmpty(a);
    JoinIsEmpty(b);
    if a != [] {
      JoinStarts(a);
      JoinStarts(b);
      assert a[0] == b[0];
      if |a| > 1 {
        JoinIsInjective(a[1..], b[1..]);
        assert a == [a[0]] + a[1..] && b == [b[0]] + b[1..];
      }
    }
  }

  lemma {:induction false} FullNameIsInjective(package: string, a: seq<string>, b: seq<string>)
    requires AllIdentifiers(a) && AllIdentifiers(b) && FullName(package, a) == FullName(package, b)
    ensures a == b
  {
    if package != "" {
      JoinIsEmpty(a);
      JoinIsEmpty(b);
      AfterPackage(package, a);
      AfterPackage(package, b);
    }
    JoinIsInjective(a, b);
  }

  lemma {:induction false} AfterPackage(package: string, a: seq<string>)
    requires package != ""
    ensures a == [] ==> FullName(package, a) == package
    ensures a != [] ==> FullName(package, a) == package + ("." + JoinDots(a))
    ensures a != [] ==> FullName(package, a)[|package| + 1..] == JoinDots(a)
  {
    assert ([package] + a)[1..] == a;
    assert a == [] ==> [package] + a == [package];
  }

  // ---- paths differ when siblings do --------------------------------------

  ghost predicate Apart(a: seq<Placed>, b: seq<Placed>) {
    forall i, j :: 0 <= i < |a| && 0 <= j < |b| ==> a[i].path != b[j].path
  }

  ghost predicate DistinctPaths(ps: seq<Placed>) {
    forall i, j :: 0 <= i < j < |ps| ==> ps[i].path != ps[j].path
  }

  lemma {:induction false} DistinctBoth(a: seq<Placed>, b: seq<Placed>)
    ensures DistinctPaths(a + b) <==> DistinctPaths(a) && DistinctPaths(b) && Apart(a, b)
  {
    var c := a + b;
    if DistinctPaths(c) {
      forall i, j | 0 <= i < j < |a| ensures a[i].path != a[j].path {
        assert c[i] == a[i] && c[j] == a[j];
      }
      forall i, j | 0 <= i < j < |b| ensures b[i].path != b[j].path {
        assert c[|a| + i] == b[i] && c[|a| + j] == b[j];
      }
      forall i, j | 0 <= i < |a| && 0 <= j < |b| ensures a[i].path != b[j].path {
        assert c[i] == a[i] && c[|a| + j] == b[j];
      }
    }
    if DistinctPaths(a) && DistinctPaths(b) && Apart(a, b) {
      forall i, j | 0 <= i < j < |c| ensures c[i].path != c[j].path {
        assert c[i] == if i < |a| then a[i] else b[i - |a|];
        assert c[j] == if j < |a| then a[j] else b[j - |a|];
      }
    }
  }

  lemma {:induction false} SameTail(n: string, p: seq<string>, q: seq<string>)
    ensures [n] + p == [n] + q <==> p == q
  {
    assert ([n] + p)[1..] == p && ([n] + q)[1..] == q;
  }

  lemma {:induction false} DistinctUnder(n: string, ps: seq<Placed>)
    ensures DistinctPaths(Under(n, ps)) <==> DistinctPaths(ps)
  {
    forall i, j | 0 <= i < j < |ps| ensures Under(n, ps)[i].path != Under(n, ps)[j].path <==> ps[i].path != ps[j].path {
      SameTail(n, ps[i].path, ps[j].path);
    }
    if DistinctPaths(Under(n, ps)) {
      forall i, j | 0 <= i < j < |ps| ensures ps[i].path != ps[j].path {
        assert Under(n, ps)[i].path != Under(n, ps)[j].path;
      }
    }
  }

  /** Every path is made of identifiers and begins with one of `names`. */
  ghost predicate HeadedBy(ps: seq<Placed>, names: set<string>) {
    forall i :: 0 <= i < |ps| ==> ps[i].path != [] && ps[i].path[0] in names && AllIdentifiers(ps[i].path)
  }

  lemma {:induction false} HeadedBoth(a: seq<Placed>, b: seq<Placed>, m: set<string>, n: set<string>)
    requires HeadedBy(a, m) && HeadedBy(b, n)
    ensures HeadedBy(a + b, m + n) && (m !! n ==> Apart(a, b))
  {
  }

  lemma {:induction false} HeadedUnder(n: string, ps: seq<Placed>, names: set<string>)
    requires HeadedBy(ps, names) && IsIdentifier(n)
    ensures HeadedBy(Under(n, ps), {n})
  {
  }

  lemma {:induction false} PathsAreHeaded(b: Body)
    ensures HeadedBy(Paths(b), Siblings(b))
    decreases b, 0
  {
    match b
    case Tail(_) =>
    case Statement(_, rest) => PathsAreHeaded(rest);
    case Nested(head, inner, rest) =>
      NestedAreHeaded(head, inner);
      PathsAreHeaded(rest);
      HeadedBoth(NestedPaths(head, inner), Paths(rest), NameOf(head), Siblings(rest));
    case Opaque(head, t, rest) =>
      OpaqueAreHeaded(head, t);
      PathsAreHeaded(rest);
      HeadedBoth(OpaquePaths(head, t), Paths(rest), NameOf(head), Siblings(rest));
  }

  lemma {:induction false} OneIsHeaded(n: string, d: TypeDecl)
    requires IsIdentifier(n)
    ensures HeadedBy([Placed([n], d)], {n})
  {
  }

  lemma {:induction false} NestedAreHeaded(head: string, inner: Body)
    ensures HeadedBy(NestedPaths(head, inner), NameOf(head))
    decreases inner, 1
  {
    var d := ReadDeclaration(Trim(head));
    if d.Some? {
      var n, decl := d.value.name, Declared(d.value, TreeLines(inner));
      DeclaresIdentifier(Trim(head));
      PathsAreHeaded(inner);
      HeadedUnder(n, Paths(inner), Siblings(inner));
      OneIsHeaded(n, decl);
      HeadedBoth(Under(n, Paths(inner)), [Placed([n], decl)], {n}, {n});
      assert {n} + {n} == {n};
    }
  }

  lemma {:induction false} OpaqueAreHeaded(head: string, t: string)
    ensures HeadedBy(OpaquePaths(head, t), NameOf(head))
  {
    if ReadDeclaration(Trim(head)).Some? {
      DeclaresIdentifier(Trim(head));
    }
  }

  lemma {:induction false} ForwardAreHeaded(t: string)
    ensures HeadedBy(ForwardPaths(t), ForwardName(t))
  {
    if ReadDeclaration(Trim(t)).Some? {
      DeclaresIdentifier(Trim(t));
    }
  }

  lemma {:induction false} FileIsHeaded(b: Body)
    ensures HeadedBy(FilePaths(b), FileSiblings(b))
  {
    match b
    case Tail(t) => ForwardAreHeaded(t);
    case Statement(t, rest) =>
      ForwardAreHeaded(t);
      FileIsHeaded(rest);
      HeadedBoth(ForwardPaths(t), FilePaths(rest), ForwardName(t), FileSiblings(rest));
    case Nested(head, inner, rest) =>
      NestedAreHeaded(head, inner);
      FileIsHeaded(rest);
      HeadedBoth(NestedPaths(head, inner), FilePaths(rest), NameOf(head), FileSiblings(rest));
    case Opaque(head, t, rest) =>
      OpaqueAreHeaded(head, t);
      FileIsHeaded(rest);
      HeadedBoth(OpaquePaths(head, t), FilePaths(rest), NameOf(head), FileSiblings(rest));
  }

  /** Every sibling name is the path of a declaration. */
  ghost predicate Tops(ps: seq<Placed>, names: set<string>) {
    forall n :: n in names ==> exists i :: 0 <= i < |ps| && ps[i].path == [n]
  }

  lemma {:induction false} TopsBoth(a: seq<Placed>, b: seq<Placed>, m: set<string>, n: set<string>)
    requires Tops(a, m) && Tops(b, n)
    ensures Tops(a + b, m + n) && (Apart(a, b) ==> m !! n)
  {
    var c := a + b;
    forall x | x in m + n ensures exists i :: 0 <= i < |c| && c[i].path == [x] {
      if x in m {
        var i :| 0 <= i < |a| && a[i].path == [x];
        assert c[i] == a[i];
      } else {
        var i :| 0 <= i < |b| && b[i].path == [x];
        assert c[|a| + i] == b[i];
      }
    }
    if Apart(a, b) {
      forall x | x in m ensures x !in n {
        var i :| 0 <= i < |a| && a[i].path == [x];
      }
    }
  }

  lemma {:induction false} TopsOfLast(a: seq<Placed>, n: string, d: TypeDecl)
    ensures Tops(a + [Placed([n], d)], {n})
  {
    assert (a + [Placed([n], d)])[|a|].path == [n];
  }

  lemma {:induction false} TopsOfNested(head: string, inner: Body)
    ensures Tops(NestedPaths(head, inner), NameOf(head))
  {
    var d := ReadDeclaration(Trim(head));
    if d.Some? {
      TopsOfLast(Under(d.value.name, Paths(inner)), d.value.name, Declared(d.value, TreeLines(inner)));
    }
  }

  lemma {:induction false} TopsOfOpaque(head: string, t: string)
    requires EnumMembers(t).Some?
    ensures Tops(OpaquePaths(head, t), NameOf(head))
  {
    var d := ReadDeclaration(Trim(head));
    if d.Some? {
      TopsOfLast([], d.value.name, Declared(d.value, EnumMembers(t).value));
      assert [] + OpaquePaths(head, t) == OpaquePaths(head, t);
    }
  }

  lemma {:induction false} TopsOfForward(t: string)
    ensures Tops(ForwardPaths(t), ForwardName(t))
  {
    var d := ReadDeclaration(Trim(t));
    if d.Some? && Trim(t) != "" {
      TopsOfLast([], d.value.name, Declared(d.value.(oneway := false), []));
      assert [] + ForwardPaths(t) == ForwardPaths(t);
    }
  }

  lemma {:induction false} TopsOfTree(b: Body)
    requires WellFormed(b)
    ensures Tops(Paths(b), Siblings(b))
  {
    match b
    case Tail(_) =>
    case Statement(_, rest) => TopsOfTree(rest);
    case Nested(head, inner, rest) =>
      TopsOfNested(head, inner);
      TopsOfTree(rest);
      TopsBoth(NestedPaths(head, inner), Paths(rest), NameOf(head), Siblings(rest));
    case Opaque(head, t, rest) =>
      TopsOfOpaque(head, t);
      TopsOfTree(rest);
      TopsBoth(OpaquePaths(head, t), Paths(rest), NameOf(head), Siblings(rest));
  }

  lemma {:induction false} TopsOfFile(b: Body)
    requires WellFormed(b)
    ensures Tops(FilePaths(b), FileSiblings(b))
  {
    match b
    case Tail(t) => TopsOfForward(t);
    case Statement(t, rest) =>
      TopsOfForward(t);
      TopsOfFile(rest);
      TopsBoth(ForwardPaths(t), FilePaths(rest), ForwardName(t), FileSiblings(rest));
    case Nested(head, inner, rest) =>
      TopsOfNested(head, inner);
      TopsOfFile(rest);
      TopsBoth(NestedPaths(head, inner), FilePaths(rest), NameOf(head), FileSiblings(rest));
    case Opaque(head, t, rest) =>
      TopsOfOpaque(head, t);
      TopsOfFile(rest);
      TopsBoth(OpaquePaths(head, t), FilePaths(rest), NameOf(head), FileSiblings(rest));
  }

  /** Two groups of declarations side by side. */
  lemma {:induction false} SideBySide(a: seq<Placed>, b: seq<Placed>, m: set<string>, n: set<string>)
    requires HeadedBy(a, m) && HeadedBy(b, n) && Tops(a, m) && Tops(b, n)
    ensures DistinctPaths(a + b) <==> DistinctPaths(a) && DistinctPaths(b) && m !! n
  {
    DistinctBoth(a, b);
    HeadedBoth(a, b, m, n);
    TopsBoth(a, b, m, n);
  }

  lemma {:induction false} PathsDistinct(b: Body)
    requires WellFormed(b)
    ensures DistinctPaths(Paths(b)) <==> DistinctSiblings(b)
    decreases b, 0
  {
    match b
    case Tail(_) =>
    case Statement(_, rest) => PathsDistinct(rest);
    case Nested(head, inner, rest) =>
      PathsAreHeaded(rest);
      TopsOfTree(rest);
      NestedAreHeaded(head, inner);
      TopsOfNested(head, inner);
      SideBySide(NestedPaths(head, inner), Paths(rest), NameOf(head), Siblings(rest));
      NestedDistinct(head, inner);
      PathsDistinct(rest);
    case Opaque(head, t, rest) =>
      PathsAreHeaded(rest);
      TopsOfTree(rest);
      OpaqueAreHeaded(head, t);
      TopsOfOpaque(head, t);
      SideBySide(OpaquePaths(head, t), Paths(rest), NameOf(head), Siblings(rest));
      PathsDistinct(rest);
  }

  lemma {:induction false} NestedDistinct(head: string, inner: Body)
    requires WellFormed(inner)
    ensures DistinctPaths(NestedPaths(head, inner)) <==> (NameOf(head) != {} ==> DistinctSiblings(inner))
    decreases inner, 1
  {
    var d := ReadDeclaration(Trim(head));
    if d.Some? {
      var n := d.value.name;
      PathsDistinct(inner);
      PathsAreHeaded(inner);
      DistinctUnder(n, Paths(inner));
      LastIsShorter(n, Paths(inner), Declared(d.value, TreeLines(inner)), Siblings(inner));
      assert n in NameOf(head);
    }
  }

  lemma {:induction false} LastIsShorter(n: string, ps: seq<Placed>, d: TypeDecl, names: set<string>)
    requires HeadedBy(ps, names)
    ensures DistinctPaths(Under(n, ps) + [Placed([n], d)]) <==> DistinctPaths(Under(n, ps))
  {
    DistinctBoth(Under(n, ps), [Placed([n], d)]);
    forall i | 0 <= i < |ps| ensures Under(n, ps)[i].path != [n] {
      assert |Under(n, ps)[i].path| > 1;
    }
  }

  lemma {:induction false} FilePathsDistinct(b: Body)
    requires WellFormed(b)
    ensures DistinctPaths(FilePaths(b)) <==> DistinctInFile(b)
  {
    match b
    case Tail(_) =>
    case Statement(t, rest) =>
      FileIsHeaded(rest);
      TopsOfFile(rest);
      ForwardAreHeaded(t);
      TopsOfForward(t);
      SideBySide(ForwardPaths(t), FilePaths(rest), ForwardName(t), FileSiblings(rest));
      FilePathsDistinct(rest);
    case Nested(head, inner, rest) =>
      FileIsHeaded(rest);
      TopsOfFile(rest);
      NestedAreHeaded(head, inner);
      TopsOfNested(head, inner);
      SideBySide(NestedPaths(head, inner), FilePaths(rest), NameOf(head), FileSiblings(rest));
      NestedDistinct(head, inner);
      FilePathsDistinct(rest);
    case Opaque(head, t, rest) =>
      FileIsHeaded(rest);
      TopsOfFile(rest);
      OpaqueAreHeaded(head, t);
      TopsOfOpaque(head, t);
      SideBySide(OpaquePaths(head, t), FilePaths(rest), NameOf(head), FileSiblings(rest));
      FilePathsDistinct(rest);
  }

  lemma {:induction false} NamesFollowPaths(ps: seq<Placed>, names: set<string>, package: string)
    requires HeadedBy(ps, names)
    ensures DistinctNames(Named(ps, package, [])) <==> DistinctPaths(ps)
  {
    var es := Named(ps, package, []);
    forall i, j | 0 <= i < j < |ps| ensures es[i].name == es[j].name <==> ps[i].path == ps[j].path {
      assert [] + ps[i].path == ps[i].path && [] + ps[j].path == ps[j].path;
      if es[i].name == es[j].name {
        FullNameIsInjective(package, ps[i].path, ps[j].path);
      }
    }
    if DistinctNames(es) {
      forall i, j | 0 <= i < j < |ps| ensures ps[i].path != ps[j].path {
        assert es[i].name != es[j].name;
      }
    }
  }

  /** No qualified name is declared twice exactly when, at every level, siblings bear different names. */
  lemma {:induction false} DistinctExactly(b: Body, package: string)
    requires WellFormed(b)
    ensures DistinctNames(FileEntries(b, package)) <==> DistinctInFile(b)
  {
    FileIsNamed(b, package);
    FileIsHeaded(b);
    NamesFollowPaths(FilePaths(b), FileSiblings(b), package);
    FilePathsDistinct(b);
  }

  // ---- the table ----------------------------------------------------------

  lemma {:induction false} AmongBoth(a: seq<Placed>, b: seq<Placed>, p: Placed)
    ensures p in a + b <==> p in a || p in b
  {
  }

  lemma {:induction false} AmongUnder(n: string, ps: seq<Placed>, p: Placed)
    ensures p in Under(n, ps) <==> p.path != [] && p.path[0] == n && Placed(p.path[1..], p.decl) in ps
  {
    if p in Under(n, ps) {
      var i :| 0 <= i < |ps| && Under(n, ps)[i] == p;
      assert p.path[1..] == ps[i].path;
      assert ps[i] == Placed(p.path[1..], p.decl);
    }
    if p.path != [] && p.path[0] == n && Placed(p.path[1..], p.decl) in ps {
      var i :| 0 <= i < |ps| && ps[i] == Placed(p.path[1..], p.decl);
      assert p.path == [n] + p.path[1..];
      assert Under(n, ps)[i] == p;
    }
  }

  lemma {:induction false} AmongOne(n: string, d: TypeDecl, p: Placed)
    ensures p in [Placed([n], d)] <==> |p.path| == 1 && p.path[0] == n && p.decl == d
  {
    assert |p.path| == 1 ==> p.path == [p.path[0]];
  }

  lemma {:induction false} DeclaredIsPlaced(b: Body, p: Placed)
    ensures p in Paths(b) <==> DeclaredAt(b, p.path, p.decl)
    decreases b, 0
  {
    match b
    case Tail(_) =>
    case Statement(_, rest) => DeclaredIsPlaced(rest, p);
    case Nested(head, inner, rest) =>
      NestedIsPlaced(head, inner, p);
      DeclaredIsPlaced(rest, p);
      AmongBoth(NestedPaths(head, inner), Paths(rest), p);
    case Opaque(head, t, rest) =>
      OpaqueIsPlaced(head, t, p);
      DeclaredIsPlaced(rest, p);
      AmongBoth(OpaquePaths(head, t), Paths(rest), p);
  }

  lemma {:induction false} NestedIsPlaced(head: string, inner: Body, p: Placed)
    ensures p in NestedPaths(head, inner) <==> DeclaredBy(head, inner, p.path, p.decl)
    decreases inner, 1
  {
    var d := ReadDeclaration(Trim(head));
    if d.Some? {
      var n, decl := d.value.name, Declared(d.value, TreeLines(inner));
      AmongBoth(Under(n, Paths(inner)), [Placed([n], decl)], p);
      AmongUnder(n, Paths(inner), p);
      AmongOne(n, decl, p);
      PathsAreHeaded(inner);
      if p.path != [] {
        DeclaredIsPlaced(inner, Placed(p.path[1..], p.decl));
      }
    }
  }

  lemma {:induction false} OpaqueIsPlaced(head: string, t: string, p: Placed)
    ensures p in OpaquePaths(head, t) <==> DeclaredEnum(head, t, p.path, p.decl)
  {
    var d := ReadDeclaration(Trim(head));
    if d.Some? && EnumMembers(t).Some? {
      AmongOne(d.value.name, Declared(d.value, EnumMembers(t).value), p);
    }
  }

  lemma {:induction false} ForwardIsPlaced(t: string, p: Placed)
    ensures p in ForwardPaths(t) <==> DeclaredForward(t, p.path, p.decl)
  {
    var d := ReadDeclaration(Trim(t));
    if d.Some? && Trim(t) != "" {
      AmongOne(d.value.name, Declared(d.value.(oneway := false), []), p);
    }
  }

  lemma {:induction false} FileIsPlaced(b: Body, p: Placed)
    ensures p in FilePaths(b) <==> DeclaredInFile(b, p.path, p.decl)
  {
    match b
    case Tail(t) => ForwardIsPlaced(t, p);
    case Statement(t, rest) =>
      ForwardIsPlaced(t, p);
      FileIsPlaced(rest, p);
      AmongBoth(ForwardPaths(t), FilePaths(rest), p);
    case Nested(head, inner, rest) =>
      NestedIsPlaced(head, inner, p);
      FileIsPlaced(rest, p);
      AmongBoth(NestedPaths(head, inner), FilePaths(rest), p);
    case Opaque(head, t, rest) =>
      OpaqueIsPlaced(head, t, p);
      FileIsPlaced(rest, p);
      AmongBoth(OpaquePaths(head, t), FilePaths(rest), p);
  }

  /** The table read from a file. */
  function FileTable(b: Body, package: string): Surface
    requires WellFormed(b)
  {
    ParseUndoesPrint(b, package, map[]);
    ReadFile(Split("", Print(b)), package, map[]).value
  }

  /** Every type is in the table under its path, as declared. */
  lemma {:induction false} DeclaredIsEntered(b: Body, package: string, path: seq<string>, d: TypeDecl)
    requires WellFormed(b) && DistinctInFile(b) && DeclaredInFile(b, path, d)
    ensures FullName(package, path) in FileTable(b, package) && FileTable(b, package)[FullName(package, path)] == d
  {
    var es, q := FileEntries(b, package), FullName(package, path);
    ParseUndoesPrint(b, package, map[]);
    DistinctExactly(b, package);
    FileIsNamed(b, package);
    FileIsPlaced(b, Placed(path, d));
    var i :| 0 <= i < |FilePaths(b)| && FilePaths(b)[i] == Placed(path, d);
    assert [] + path == path;
    assert es[i] == Entry(q, d);
    EachTypeOnce(es, q);
  }

  /** The table holds nothing else. */
  lemma {:induction false} EnteredIsDeclared(b: Body, package: string, q: string)
    requires WellFormed(b) && DistinctInFile(b) && q in FileTable(b, package)
    ensures exists path :: DeclaredInFile(b, path, FileTable(b, package)[q]) && q == FullName(package, path)
  {
    var es, ps := FileEntries(b, package), FilePaths(b);
    ParseUndoesPrint(b, package, map[]);
    DistinctExactly(b, package);
    FileIsNamed(b, package);
    EachTypeOnce(es, q);
    var i :| 0 <= i < |es| && es[i].name == q;
    assert [] + ps[i].path == ps[i].path;
    FileIsPlaced(b, ps[i]);
    assert DeclaredInFile(b, ps[i].path, FileTable(b, package)[q]);
  }
}
