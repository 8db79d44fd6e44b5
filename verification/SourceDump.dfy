/** From source text to dump and back: what a file declares, each type once, and what its dump says. */
module SourceDump {
  import opened Basics
  import opened SortedNames
  import opened SurfaceModel
  import opened Headers
  import opened StatementSplitter
  import opened Normalizer
  import opened NormalForm
  import opened EnumBody
  import opened DeclarationParser
  import Sorting
  import SurfaceDump
  import CommentStripper
  import SurfaceDiff
  import DiffAlgebra

  // ---- files --------------------------------------------------------------

  /** What a top-level statement declares. */
  function ForwardEntries(t: string, package: string): seq<Entry> {
    if Trim(t) == "" then []
    else
      match ReadDeclaration(Trim(t))
      case None => []
      case Some(h) => [Entry(Dotted(package, h.name), Declared(h.(oneway := false), []))]
  }

  /** The types a whole file declares. */
  function FileEntries(b: Body, package: string): seq<Entry> {
    match b
    case Tail(t) => ForwardEntries(t, package)
    case Statement(t, rest) => ForwardEntries(t, package) + FileEntries(rest, package)
    case Nested(head, inner, rest) => NestedEntries(head, inner, package, "") + FileEntries(rest, package)
    case Opaque(head, t, rest) => OpaqueEntries(head, t, package, "") + FileEntries(rest, package)
  }

  lemma {:induction false} ReadFileFlush(t: string, pieces: seq<Piece>, package: string, types: Surface)
    ensures ReadFile(Flush(t) + pieces, package, types) == ReadFile(pieces, package, Enter(ForwardEntries(t, package), types))
  {
    if Trim(t) == "" {
      assert Flush(t) + pieces == pieces;
    } else {
      assert (Flush(t) + pieces)[1..] == pieces;
      if ForwardEntries(t, package) != [] {
        EnterOne(ForwardEntries(t, package)[0], types);
      }
    }
  }

  lemma {:induction false} ReadFileDecl(p: Piece, pieces: seq<Piece>, package: string, types: Surface, ts: Surface)
    requires p.Decl? && ReadType(p.header, p.body, package, "", types) == Some(ts)
    ensures ReadFile([p] + pieces, package, types) == ReadFile(pieces, package, ts)
  {
    assert ([p] + pieces)[1..] == pieces;
  }

  lemma {:induction false} ReadOpaque(head: string, t: string, package: string, outer: string, types: Surface)
    requires DeclaresEnum(head) && EnumMembers(t).Some?
    ensures ReadType(Trim(head), t, package, outer, types) == Some(Enter(OpaqueEntries(head, t, package, outer), types))
  {
    EnterOne(OpaqueEntries(head, t, package, outer)[0], types);
  }

  lemma {:induction false} ReadPieces(b: Body, package: string, types: Surface)
    requires WellFormed(b)
    ensures ReadFile(Pieces(b), package, types) == Some(Enter(FileEntries(b, package), types))
  {
    match b
    case Tail(t) =>
      assert Flush(t) + [] == Flush(t);
      ReadFileFlush(t, [], package, types);
    case Statement(t, rest) =>
      var es := ForwardEntries(t, package);
      ReadFileFlush(t, Pieces(rest), package, types);
      ReadPieces(rest, package, Enter(es, types));
      EnterBoth(es, FileEntries(rest, package), types);
    case Nested(head, inner, rest) =>
      var es := NestedEntries(head, inner, package, "");
      ReadNestedTree(head, inner, package, "", types);
      ReadFileDecl(Decl(Trim(head), Print(inner)), Pieces(rest), package, types, Enter(es, types));
      ReadPieces(rest, package, Enter(es, types));
      EnterBoth(es, FileEntries(rest, package), types);
    case Opaque(head, t, rest) =>
      var es := OpaqueEntries(head, t, package, "");
      ReadOpaque(head, t, package, "", types);
      ReadFileDecl(Decl(Trim(head), t), Pieces(rest), package, types, Enter(es, types));
      ReadPieces(rest, package, Enter(es, types));
      EnterBoth(es, FileEntries(rest, package), types);
  }

  /** Parsing undoes printing, for declaration trees of any depth and in any layout. */
  lemma {:induction false} ParseUndoesPrint(b: Body, package: string, types: Surface)
    requires WellFormed(b)
    ensures ReadFile(Split("", Print(b)), package, types) == Some(Enter(FileEntries(b, package), types))
  {
    WellFormedIsBalanced(b);
    SplitUndoesPrint(b);
    ReadPieces(b, package, types);
  }

  // ---- each type once -----------------------------------------------------

  ghost predicate DistinctNames(es: seq<Entry>) {
    forall i, j :: 0 <= i < j < |es| ==> es[i].name != es[j].name
  }

  lemma {:induction false} EnterKeepsOthers(es: seq<Entry>, types: Surface, q: string)
    requires forall i :: 0 <= i < |es| ==> es[i].name != q
    ensures q in Enter(es, types) <==> q in types
    ensures q in types ==> Enter(es, types)[q] == types[q]
  {
    if es != [] {
      EnterKeepsOthers(es[1..], types[es[0].name := es[0].decl], q);
    }
  }

  lemma {:induction false} EnterFinds(es: seq<Entry>, types: Surface, i: nat)
    requires DistinctNames(es) && i < |es|
    ensures es[i].name in Enter(es, types) && Enter(es, types)[es[i].name] == es[i].decl
  {
    var next := types[es[0].name := es[0].decl];
    if i == 0 {
      EnterKeepsOthers(es[1..], next, es[0].name);
    } else {
      EnterFinds(es[1..], next, i - 1);
    }
  }

  /** When no qualified name is declared twice, the table holds every declared type under its name, as
      declared, and nothing else. */
  lemma {:induction false} EachTypeOnce(es: seq<Entry>, q: string)
    requires DistinctNames(es)
    ensures forall i :: 0 <= i < |es| && es[i].name == q ==> q in Enter(es, map[]) && Enter(es, map[])[q] == es[i].decl
    ensures (forall i :: 0 <= i < |es| ==> es[i].name != q) ==> q !in Enter(es, map[])
  {
    forall i | 0 <= i < |es| && es[i].name == q ensures q in Enter(es, map[]) && Enter(es, map[])[q] == es[i].decl {
      EnterFinds(es, map[], i);
    }
    if forall i :: 0 <= i < |es| ==> es[i].name != q {
      EnterKeepsOthers(es, map[], q);
    }
  }

  // ---- annotations read are whole annotations -----------------------------

  lemma {:induction false} WordRunIsWord(s: string)
    ensures AllWord(s[..WordRun(s)]) && (WordRun(s) < |s| ==> !IsWord(s[WordRun(s)]))
  {
    if s != "" && IsWord(s[0]) {
      WordRunIsWord(s[1..]);
      var n := WordRun(s[1..]);
      assert s[..1 + n] == [s[0]] + s[1..][..n];
    }
  }

  lemma {:induction false} WordRunOf(u: string, r: string)
    requires AllWord(u) && (r == "" || !IsWord(r[0]))
    ensures WordRun(u + r) == |u|
  {
    if u == "" {
      assert u + r == r;
    } else {
      DropLeft(u, r, 1);
      WordRunOf(u[1..], r);
    }
  }

  predicate NoClose(s: string) {
    forall i :: 0 <= i < |s| ==> s[i] != ')'
  }

  lemma {:induction false} CloseParenIsFirst(s: string)
    ensures NoClose(s[..CloseParen(s)]) && (CloseParen(s) < |s| ==> s[CloseParen(s)] == ')')
  {
    if s != "" && s[0] != ')' {
      CloseParenIsFirst(s[1..]);
      var n := CloseParen(s[1..]);
      assert s[..1 + n] == [s[0]] + s[1..][..n];
    }
  }

  lemma {:induction false} CloseParenOf(u: string, r: string)
    requires NoClose(u)
    ensures CloseParen(u + (")" + r)) == |u|
  {
    if u == "" {
      assert u + (")" + r) == ")" + r;
    } else {
      DropLeft(u, ")" + r, 1);
      CloseParenOf(u[1..], r);
    }
  }

  lemma {:induction false} SqueezedText(s: string)
    ensures NoSpaceIn(Squeeze(s)) && (NoClose(s) ==> NoClose(Squeeze(s)))
  {
    if s != "" {
      SqueezedText(s[1..]);
    }
  }

  lemma {:induction false} SqueezeSpaces(s: string, n: nat)
    requires n <= SpaceRun(s)
    ensures Squeeze(s[..n]) == ""
  {
    if n > 0 {
      SqueezeSpaces(s[1..], n - 1);
      assert s[..n][1..] == s[1..][..n - 1];
    }
  }

  lemma {:induction false} SimpleAnnotation(w: string)
    requires w != "" && AllWord(w)
    ensures IsAnnotation("@" + w) && Squeeze("@" + w) == "@" + w
  {
    var a := "@" + w;
    WordRunOf(w, "");
    assert a[1..] == w && w + "" == w;
    SqueezeNothing(a);
  }

  lemma {:induction false} CutTail(w: string, x: string)
    ensures var tail := "(" + (x + ")"); var a := "@" + (w + tail);
      a[1..] == w + tail && a[1 + |w|..] == tail && a[2 + |w|..] == x + ")"
  {
  }

  lemma {:induction false} ArgumentAnnotation(w: string, x: string)
    requires w != "" && AllWord(w) && NoClose(x) && NoSpaceIn(x)
    ensures IsAnnotation("@" + (w + ("(" + (x + ")"))))
  {
    var tail := "(" + (x + ")");
    CutTail(w, x);
    WordRunOf(w, tail);
    assert SpaceRun(tail) == 0;
    CloseParenOf(x, "");
    assert ")" + "" == ")";
  }

  lemma {:induction false} CutWord(s: string, w: nat)
    requires 1 + w <= |s| && s[0] == '@'
    ensures s[..1 + w] == "@" + s[1..][..w] && s == ("@" + s[1..][..w]) + s[1 + w..]
  {
  }

  lemma {:induction false} AnnotationIsWhole(s: string)
    requires AnnotationLength(s) > 0
    ensures IsAnnotation(Squeeze(s[..AnnotationLength(s)]))
  {
    var w := WordRun(s[1..]);
    WordRunIsWord(s[1..]);
    CutWord(s, w);
    if AnnotationLength(s) == 1 + w {
      SimpleAnnotation(s[1..][..w]);
    } else {
      WithArguments(s, w, s[1 + w..]);
    }
  }

  lemma {:induction false} WithArguments(s: string, w: nat, r: string)
    requires AnnotationLength(s) > 1 + w && w == WordRun(s[1..]) && r == s[1 + w..] && AllWord(s[1..][..w])
    ensures IsAnnotation(Squeeze(s[..AnnotationLength(s)]))
  {
    var k := SpaceRun(r);
    CutWord(s, w);
    assert r[k + 1..] == s[1 + w + k + 1..];
    ArgumentsAreWhole(s[1..][..w], r, k, CloseParen(r[k + 1..]));
  }

  lemma {:induction false} CutArguments(h: string, r: string, k: nat, c: nat)
    requires k + 1 + c < |r| && r[k] == '(' && r[k + 1 + c] == ')'
    ensures (h + r)[..|h| + k + 2 + c] == h + (r[..k] + ("(" + (r[k + 1..][..c] + ")")))
  {
    assert r[..k + 2 + c] == r[..k] + ("(" + (r[k + 1..][..c] + ")"));
    assert (h + r)[..|h| + k + 2 + c] == h + r[..k + 2 + c];
  }

  lemma {:induction false} SqueezeArguments(h: string, spaces: string, x: string)
    requires Squeeze(spaces) == "" && Squeeze(h) == h
    ensures Squeeze(h + (spaces + ("(" + (x + ")")))) == h + ("(" + (Squeeze(x) + ")"))
  {
    SqueezeAppend(h, spaces + ("(" + (x + ")")));
    SqueezeAppend(spaces, "(" + (x + ")"));
    SqueezeAppend("(", x + ")");
    SqueezeAppend(x, ")");
    SqueezeOne('(');
    SqueezeOne(')');
    assert "" + ("(" + (Squeeze(x) + ")")) == "(" + (Squeeze(x) + ")");
  }

  lemma {:induction false} SqueezedIsWhole(word: string, spaces: string, x: string)
    requires word != "" && AllWord(word) && Squeeze(spaces) == "" && NoClose(x)
    ensures IsAnnotation(Squeeze(("@" + word) + (spaces + ("(" + (x + ")")))))
  {
    SimpleAnnotation(word);
    SqueezeArguments("@" + word, spaces, x);
    SqueezedText(x);
    ArgumentAnnotation(word, Squeeze(x));
    Regroup("@", word, "(" + (Squeeze(x) + ")"));
  }

  lemma {:induction false} ArgumentsAreWhole(word: string, r: string, k: nat, c: nat)
    requires word != "" && AllWord(word)
    requires k == SpaceRun(r) && k < |r| && r[k] == '(' && c == CloseParen(r[k + 1..]) && k + 1 + c < |r|
    ensures IsAnnotation(Squeeze((("@" + word) + r)[..1 + |word| + k + 2 + c]))
  {
    CloseParenIsFirst(r[k + 1..]);
    CutArguments("@" + word, r, k, c);
    SqueezeSpaces(r, k);
    SqueezedIsWhole(word, r[..k], r[k + 1..][..c]);
  }

  predicate AllAnnotations(anns: seq<string>) {
    forall i :: 0 <= i < |anns| ==> IsAnnotation(anns[i])
  }

  lemma {:induction false} OneMoreAnnotation(a: string, anns: seq<string>)
    requires IsAnnotation(a) && AllAnnotations(anns)
    ensures AllAnnotations([a] + anns)
  {
  }

  lemma {:induction false} TakeUnfolds(rest: string)
    requires AnnotationLength(rest) > 0
    ensures var n := AnnotationLength(rest); Take(rest).0 == [Squeeze(rest[..n])] + Take(Trim(rest[n..])).0
  {
  }

  /** Every annotation taken off a text is whole and free of white space. */
  lemma {:induction false} TakenAreAnnotations(rest: string)
    ensures AllAnnotations(Take(rest).0)
    decreases |rest|
  {
    var n := AnnotationLength(rest);
    if n > 0 {
      AnnotationIsWhole(rest);
      TakenAreAnnotations(Trim(rest[n..]));
      OneMoreAnnotation(Squeeze(rest[..n]), Take(Trim(rest[n..])).0);
      TakeUnfolds(rest);
    }
  }

  // ---- what is read can be dumped -----------------------------------------

  lemma {:induction false} LessIsTotal()
    ensures Sorting.StrictTotal(Less)
  {
    forall a, b ensures !(Less(a, b) && Less(b, a)) && (a == b || Less(a, b) || Less(b, a)) {
      LessTotal(a, b);
    }
    forall a, b, c | Less(a, b) && Less(b, c) ensures Less(a, c) {
      LessTransitive(a, b, c);
    }
  }

  /** Sorting yields a sorted permutation. */
  lemma {:induction false} SortAllSorts(s: seq<string>)
    ensures SurfaceDump.Ordered(SurfaceDump.SortAll(s)) && multiset(SurfaceDump.SortAll(s)) == multiset(s)
  {
    LessIsTotal();
    Sorting.SortSorts(Less, s);
  }

  lemma {:induction false} SortedAnnotations(anns: seq<string>)
    requires AllAnnotations(anns)
    ensures AllAnnotations(SurfaceDump.SortAll(anns)) && SurfaceDump.Ordered(SurfaceDump.SortAll(anns))
  {
    var r := SurfaceDump.SortAll(anns);
    SortAllSorts(anns);
    forall i | 0 <= i < |r| ensures IsAnnotation(r[i]) {
      assert r[i] in multiset(r);
      assert r[i] in anns;
    }
  }

  /** A package or outer name: empty, or free of white space. */
  predicate IsPath(p: string) {
    NoSpaceIn(p)
  }

  lemma {:induction false} DottedIsPath(a: string, b: string)
    requires IsPath(a) && IsPath(b)
    ensures IsPath(Dotted(a, b)) && (b != "" ==> Dotted(a, b) != "")
  {
  }

  lemma {:induction false} DeclarationIsValid(header: string)
    requires ReadDeclaration(header).Some?
    ensures var h := ReadDeclaration(header).value; AllAnnotations(h.annotations) && IsAtom(h.name)
  {
    TakenAreAnnotations(Trim(header));
    WordsAreAtoms(TakeAnnotations(header).1);
  }

  lemma {:induction false} WordLengthIsWord(s: string)
    ensures NoSpaceIn(s[..WordLength(s)])
  {
    if s != "" && !IsSpace(s[0]) {
      WordLengthIsWord(s[1..]);
      var n := WordLength(s[1..]);
      assert s[..1 + n] == [s[0]] + s[1..][..n];
    }
  }

  lemma {:induction false} WordsAreAtoms(s: string)
    ensures AllAtoms(Words(s))
    decreases |s|
  {
    var t := TrimLeft(s);
    TrimLeftShrinks(s);
    TrimLeftStops(s);
    if t != "" {
      WordLengthIsWord(t);
      WordsAreAtoms(t[WordLength(t)..]);
    }
  }

  predicate AllLines(members: seq<string>) {
    forall i :: 0 <= i < |members| ==> IsTrimmed(members[i]) && OneLine(members[i])
  }

  predicate PrintableEntry(e: Entry) {
    SurfaceDump.PrintableType(e.name, e.decl)
  }

  predicate AllPrintable(es: seq<Entry>) {
    forall i :: 0 <= i < |es| ==> PrintableEntry(es[i])
  }

  lemma {:induction false} DeclaredIsPrintable(header: string, oneway: bool, path: string, members: seq<string>)
    requires ReadDeclaration(header).Some? && IsPath(path) && AllLines(members)
    ensures var h := ReadDeclaration(header).value;
      PrintableEntry(Entry(Dotted(path, h.name), Declared(h.(oneway := oneway), members)))
  {
    var h := ReadDeclaration(header).value;
    DeclarationIsValid(header);
    SortedAnnotations(h.annotations);
    DottedIsPath(path, h.name);
  }

  // ---- sources whose dump can be read back --------------------------------

  /** Identifiers for names, and expressions that are nonblank and on one line. */
  predicate TidyEnumerator(e: Enumerator) {
    IsIdentifier(e.name) && (e.Symbolic? ==> Closed(e.expr) && SingleLine(e.expr) && Trim(e.expr) != "")
  }

  predicate TidyEnum(t: string) {
    Enumerators(SplitCommas(t)).Some? &&
    var es := Enumerators(SplitCommas(t)).value;
    forall i :: 0 <= i < |es| ==> TidyEnumerator(es[i])
  }

  /** No literal spans lines, and enum bodies are tidy. */
  predicate TidyTree(b: Body) {
    match b
    case Tail(t) => SingleLine(t)
    case Statement(t, rest) => SingleLine(t) && TidyTree(rest)
    case Nested(head, inner, rest) => TidyTree(inner) && TidyTree(rest)
    case Opaque(head, t, rest) => TidyEnum(t) && TidyTree(rest)
  }

  lemma {:induction false} IntTextIsLine(v: int)
    ensures IsAtom(IntText(v)) && OneLine(IntText(v))
  {
    Text.DecimalIsDigits(if v < 0 then -v else v);
  }

  lemma {:induction false} AssignmentIsLine(name: string, value: string)
    requires IsIdentifier(name) && IsTrimmed(value) && OneLine(value)
    ensures IsTrimmed(name + (" = " + value)) && OneLine(name + (" = " + value))
  {
    assert OneLine(name) && OneLine(" = ");
    OneLineAppend(" = ", value);
    OneLineAppend(name, " = " + value);
  }

  lemma {:induction false} EnumLineIsLine(e: Enumerator, v: Option<int>)
    requires TidyEnumerator(e)
    ensures IsTrimmed(Line(e, v)) && OneLine(Line(e, v))
  {
    if v.Some? {
      IntTextIsLine(v.value);
      AssignmentIsLine(e.name, IntText(v.value));
    } else if e.Symbolic? {
      NormalizeIsLine(e.expr);
      AssignmentIsLine(e.name, Normalize(e.expr));
    }
  }

  lemma {:induction false} EnumLinesAreLines(t: string)
    requires TidyEnum(t)
    ensures EnumMembers(t).Some? && AllLines(EnumMembers(t).value)
  {
    var es := Enumerators(SplitCommas(t)).value;
    forall i | 0 <= i < |es| ensures IsTrimmed(Lines(es, Some(-1))[i]) && OneLine(Lines(es, Some(-1))[i]) {
      LineAt(es, Some(-1), i);
      EnumLineIsLine(es[i], Backing(es, Some(-1), i));
    }
  }

  lemma {:induction false} TreeLinesAreLines(b: Body)
    requires WellFormed(b) && TidyTree(b)
    ensures AllLines(TreeLines(b))
  {
    match b
    case Tail(t) => LinesOfAreLines(t);
    case Statement(t, rest) =>
      LinesOfAreLines(t);
      TreeLinesAreLines(rest);
    case Nested(_, _, rest) => TreeLinesAreLines(rest);
    case Opaque(_, _, rest) => TreeLinesAreLines(rest);
  }

  lemma {:induction false} LinesOfAreLines(t: string)
    requires Unstructured(t) && SingleLine(t)
    ensures AllLines(LinesOf(t))
  {
    if Trim(t) != "" {
      UnstructuredIsClosed(t);
      NormalizeIsLine(t);
    }
  }

  lemma {:induction false} AllPrintableAppend(a: seq<Entry>, b: seq<Entry>)
    requires AllPrintable(a) && AllPrintable(b)
    ensures AllPrintable(a + b)
  {
  }

  lemma {:induction false} NestedIsPrintable(head: string, inner: Body, package: string, outer: string)
    requires WellFormed(inner) && TidyTree(inner) && IsPath(package) && IsPath(outer)
    ensures AllPrintable(NestedEntries(head, inner, package, outer))
    decreases inner, 1
  {
    var d := ReadDeclaration(Trim(head));
    if d.Some? {
      var h := d.value;
      DeclarationIsValid(Trim(head));
      DottedIsPath(outer, h.name);
      DottedIsPath(package, outer);
      TreeLinesAreLines(inner);
      DeclaredIsPrintable(Trim(head), h.oneway, Dotted(package, outer), TreeLines(inner));
      TreeIsPrintable(inner, package, Dotted(outer, h.name));
      AllPrintableAppend(Entries(inner, package, Dotted(outer, h.name)),
                         [Entry(QualifiedName(package, outer, h.name), Declared(h, TreeLines(inner)))]);
    }
  }

  lemma {:induction false} OpaqueIsPrintable(head: string, t: string, package: string, outer: string)
    requires TidyEnum(t) && IsPath(package) && IsPath(outer)
    ensures AllPrintable(OpaqueEntries(head, t, package, outer))
  {
    EnumLinesAreLines(t);
    DottedIsPath(package, outer);
    var d := ReadDeclaration(Trim(head));
    if d.Some? {
      DeclaredIsPrintable(Trim(head), d.value.oneway, Dotted(package, outer), EnumMembers(t).value);
    }
  }

  lemma {:induction false} TreeIsPrintable(b: Body, package: string, outer: string)
    requires WellFormed(b) && TidyTree(b) && IsPath(package) && IsPath(outer)
    ensures AllPrintable(Entries(b, package, outer))
    decreases b, 0
  {
    match b
    case Tail(_) =>
    case Statement(_, rest) => TreeIsPrintable(rest, package, outer);
    case Nested(head, inner, rest) =>
      NestedIsPrintable(head, inner, package, outer);
      TreeIsPrintable(rest, package, outer);
      AllPrintableAppend(NestedEntries(head, inner, package, outer), Entries(rest, package, outer));
    case Opaque(head, t, rest) =>
      OpaqueIsPrintable(head, t, package, outer);
      TreeIsPrintable(rest, package, outer);
      AllPrintableAppend(OpaqueEntries(head, t, package, outer), Entries(rest, package, outer));
  }

  lemma {:induction false} ForwardIsPrintable(t: string, package: string)
    requires IsPath(package)
    ensures AllPrintable(ForwardEntries(t, package))
  {
    var d := ReadDeclaration(Trim(t));
    if d.Some? {
      DeclaredIsPrintable(Trim(t), false, package, []);
    }
  }

  lemma {:induction false} FileIsPrintable(b: Body, package: string)
    requires WellFormed(b) && TidyTree(b) && IsPath(package)
    ensures AllPrintable(FileEntries(b, package))
  {
    match b
    case Tail(t) => ForwardIsPrintable(t, package);
    case Statement(t, rest) =>
      ForwardIsPrintable(t, package);
      FileIsPrintable(rest, package);
      AllPrintableAppend(ForwardEntries(t, package), FileEntries(rest, package));
    case Nested(head, inner, rest) =>
      NestedIsPrintable(head, inner, package, "");
      FileIsPrintable(rest, package);
      AllPrintableAppend(NestedEntries(head, inner, package, ""), FileEntries(rest, package));
    case Opaque(head, t, rest) =>
      OpaqueIsPrintable(head, t, package, "");
      FileIsPrintable(rest, package);
      AllPrintableAppend(OpaqueEntries(head, t, package, ""), FileEntries(rest, package));
  }

  lemma {:induction false} EnterPrintable(es: seq<Entry>, types: Surface)
    requires AllPrintable(es) && SurfaceDump.Printable(types)
    ensures SurfaceDump.Printable(Enter(es, types))
  {
    if es != [] {
      assert PrintableEntry(es[0]);
      EnterPrintable(es[1..], types[es[0].name := es[0].decl]);
    }
  }

  /** Reading another file into a table that can be dumped gives a table that can be dumped, and its
      dump reads back as the table. */
  lemma {:induction false} SourceRoundTrip(b: Body, package: string, types: Surface)
    requires WellFormed(b) && TidyTree(b) && IsPath(package) && SurfaceDump.Printable(types)
    ensures ReadFile(Split("", Print(b)), package, types).Some?
    ensures var read := ReadFile(Split("", Print(b)), package, types).value;
      SurfaceDump.Printable(read) && SurfaceDump.ParseDump(SurfaceDump.DumpText(read)) == Some(read)
  {
    ParseUndoesPrint(b, package, types);
    FileIsPrintable(b, package);
    EnterPrintable(FileEntries(b, package), types);
    SurfaceDump.DumpRoundTrip(Enter(FileEntries(b, package), types));
  }

  // ---- comments do not show -----------------------------------------------

  /** Source text to types: comments go, the package and import lines are taken out by `prepare`, and
      the rest is parsed. */
  function ReadSource(prepare: string -> (string, string), text: string, types: Surface): Option<Surface> {
    var (package, code) := prepare(CommentStripper.Strip(text));
    ReadFile(Split("", code), package, types)
  }

  /** Two sources that differ only in what a comment says declare the same types, so their diff is
      `none` and lists nothing. */
  lemma {:induction false} DocOnlyChange(prepare: string -> (string, string), pre: string, a: string, b: string, post: string, types: Surface,
                                         id: SurfaceDiff.Naming)
    requires CommentStripper.CodeAt(pre + (a + post), |pre|)
    requires
      || (CommentStripper.IsBlockBefore(a, post) && CommentStripper.IsBlockBefore(b, post))
      || (CommentStripper.IsLine(a) && CommentStripper.IsLine(b) && CommentStripper.EndsLine(post))
    ensures var o, n := ReadSource(prepare, pre + (a + post), types), ReadSource(prepare, pre + (b + post), types);
      o == n && (o.Some? ==> SurfaceDiff.Classify(id, o.value, n.value) == SurfaceDiff.NoChange && SurfaceDiff.Changes(id, o.value, n.value) == [])
  {
    if CommentStripper.IsBlockBefore(a, post) && CommentStripper.IsBlockBefore(b, post) {
      CommentStripper.BlockCommentIsIrrelevant(pre, a, b, post);
    } else {
      CommentStripper.LineCommentIsIrrelevant(pre, a, b, post);
    }
    var o := ReadSource(prepare, pre + (a + post), types);
    if o.Some? {
      DiffAlgebra.SelfDiffIsEmpty(id, o.value);
    }
  }
}
