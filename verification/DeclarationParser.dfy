/** Reading the declared types out of AIDL code, nested ones included. */
module DeclarationParser {
  import opened Basics
  import opened SurfaceModel
  import opened Headers
  import SurfaceDump
  import opened StatementSplitter
  import opened Normalizer
  import opened NormalForm
  import opened EnumBody

  // ---- names and headers --------------------------------------------------

  /** Joins with a dot, leaving out what is empty. */
  function Dotted(a: string, b: string): string {
    if a == "" then b else if b == "" then a else a + ("." + b)
  }

  function QualifiedName(package: string, outer: string, name: string): string {
    Dotted(Dotted(package, outer), name)
  }

  predicate AllWord(s: string) {
    forall i :: 0 <= i < |s| ==> IsWord(s[i])
  }

  /** Reads the header of a declaration; `None` when it declares nothing. */
  function ReadDeclaration(header: string): Option<Header> {
    match ReadHeader(header)
    case Some(h) => if AllWord(h.name) then Some(h) else None
    case None => None
  }

  function Declared(h: Header, members: seq<string>): TypeDecl {
    TypeDecl(h.kind, h.oneway, SurfaceDump.SortAll(h.annotations), members)
  }

  /** The canonical member lines among pieces, in order. */
  function MembersOf(pieces: seq<Piece>): seq<string> {
    if pieces == [] then []
    else (if pieces[0].Stmt? then [Normalize(pieces[0].text)] else []) + MembersOf(pieces[1..])
  }

  // ---- what is read -------------------------------------------------------

  /** The types after reading one declaration; `None` stands for a raised error. */
  function ReadType(header: string, body: string, package: string, outer: string, types: Surface): Option<Surface>
    decreases |body|, 1, 0
  {
    match ReadDeclaration(header)
    case None => Some(types)
    case Some(h) =>
      var q := QualifiedName(package, outer, h.name);
      if h.kind == Enum then
        match EnumMembers(body)
        case None => None
        case Some(members) => Some(types[q := Declared(h, members)])
      else
        NestedIsShorter("", body);
        var pieces := Split("", body);
        match ReadNested(pieces, |body|, package, Dotted(outer, h.name), types)
        case None => None
        case Some(ts) => Some(ts[q := Declared(h, MembersOf(pieces))])
  }

  function ReadNested(pieces: seq<Piece>, n: nat, package: string, outer: string, types: Surface): Option<Surface>
    requires Below(pieces, n)
    decreases n, 0, |pieces|
  {
    if pieces == [] then Some(types)
    else if pieces[0].Stmt? then ReadNested(pieces[1..], n, package, outer, types)
    else
      match ReadType(pieces[0].header, pieces[0].body, package, outer, types)
      case None => None
      case Some(ts) => ReadNested(pieces[1..], n, package, outer, ts)
  }

  /** A top-level statement declares a type without structure, or nothing. */
  function ReadForward(text: string, package: string, types: Surface): Surface {
    match ReadDeclaration(text)
    case None => types
    case Some(h) => types[Dotted(package, h.name) := Declared(h.(oneway := false), [])]
  }

  /** The types after reading the pieces of a file. */
  function ReadFile(pieces: seq<Piece>, package: string, types: Surface): Option<Surface> {
    if pieces == [] then Some(types)
    else if pieces[0].Stmt? then ReadFile(pieces[1..], package, ReadForward(pieces[0].text, package, types))
    else
      match ReadType(pieces[0].header, pieces[0].body, package, "", types)
      case None => None
      case Some(ts) => ReadFile(pieces[1..], package, ts)
  }

  // ---- the parser ---------------------------------------------------------

  /** Fills a table of types from the code of files. */
  class SurfaceReader {
    var types: Surface

    constructor ()
      ensures types == map[]
    {
      types := map[];
    }

    /** Enters a declaration and all declarations nested in it. */
    method ParseType(header: string, body: string, package: string, outer: string) returns (ok: bool)
      modifies this
      ensures ok ==> ReadType(header, body, package, outer, old(types)) == Some(types)
      ensures !ok ==> ReadType(header, body, package, outer, old(types)) == None
      decreases |body|, 1
    {
      var h := ReadDeclaration(header);
      if h.None? {
        return true;
      }
      var q := QualifiedName(package, outer, h.value.name);
      if h.value.kind == Enum {
        var values := ParseEnumBody(body);
        if values.Some? {
          types := types[q := Declared(h.value, values.value)];
        }
        return values.Some?;
      }
      var pieces := SplitStatements(body);
      NestedIsShorter("", body);
      var sound, members := ParseMembers(pieces, |body|, package, Dotted(outer, h.value.name));
      if !sound {
        return false;
      }
      types := types[q := Declared(h.value, members)];
      ok := true;
    }

    /** Enters the declarations among pieces of a body and collects the other pieces as members. */
    method ParseMembers(pieces: seq<Piece>, n: nat, package: string, outer: string) returns (ok: bool, members: seq<string>)
      requires Below(pieces, n)
      modifies this
      ensures ok ==> ReadNested(pieces, n, package, outer, old(types)) == Some(types) && members == MembersOf(pieces)
      ensures !ok ==> ReadNested(pieces, n, package, outer, old(types)) == None
      decreases n, 0
    {
      members := [];
      assert pieces[0..] == pieces && [] + MembersOf(pieces) == MembersOf(pieces);
      for i := 0 to |pieces|
        invariant Below(pieces[i..], n)
        invariant ReadNested(pieces, n, package, outer, old(types)) == ReadNested(pieces[i..], n, package, outer, types)
        invariant MembersOf(pieces) == members + MembersOf(pieces[i..])
      {
        PieceAt(pieces, i, n, package, outer, types);
        if pieces[i].Decl? {
          var sound := ParseType(pieces[i].header, pieces[i].body, package, outer);
          if !sound {
            return false, [];
          }
        } else {
          var line := NormalizeStatement(pieces[i].text);
          Regroup(members, [line], MembersOf(pieces[i + 1..]));
          members := members + [line];
        }
      }
      assert pieces[|pieces|..] == [] && members + [] == members;
      ok := true;
    }

    /** Enters every type of a file whose code, without comments, package and imports, is `code`. */
    method ParseFile(package: string, code: string) returns (ok: bool)
      modifies this
      ensures ok ==> ReadFile(Split("", code), package, old(types)) == Some(types)
      ensures !ok ==> ReadFile(Split("", code), package, old(types)) == None
    {
      var pieces := SplitStatements(code);
      assert pieces[0..] == pieces;
      for i := 0 to |pieces|
        invariant ReadFile(pieces, package, old(types)) == ReadFile(pieces[i..], package, types)
      {
        assert pieces[i..][0] == pieces[i] && pieces[i..][1..] == pieces[i + 1..];
        if pieces[i].Decl? {
          var sound := ParseType(pieces[i].header, pieces[i].body, package, "");
          if !sound {
            return false;
          }
        } else {
          types := ReadForward(pieces[i].text, package, types);
        }
      }
      assert pieces[|pieces|..] == [];
      ok := true;
    }
  }

  lemma {:induction false} PieceAt(pieces: seq<Piece>, i: nat, n: nat, package: string, outer: string, types: Surface)
    requires i < |pieces| && Below(pieces[i..], n)
    ensures Below(pieces[i + 1..], n) && (pieces[i].Decl? ==> |pieces[i].body| < n)
    ensures pieces[i].Stmt? ==> MembersOf(pieces[i..]) == [Normalize(pieces[i].text)] + MembersOf(pieces[i + 1..])
    ensures pieces[i].Decl? ==> MembersOf(pieces[i..]) == MembersOf(pieces[i + 1..])
    ensures pieces[i].Stmt? ==>
      ReadNested(pieces[i..], n, package, outer, types) == ReadNested(pieces[i + 1..], n, package, outer, types)
    ensures pieces[i].Decl? ==>
      ReadNested(pieces[i..], n, package, outer, types) ==
        match ReadType(pieces[i].header, pieces[i].body, package, outer, types)
        case None => None
        case Some(ts) => ReadNested(pieces[i + 1..], n, package, outer, ts)
  {
    var rest := pieces[i..];
    assert rest[0] == pieces[i] && rest[1..] == pieces[i + 1..];
    BelowRest(rest, n);
  }

  lemma {:induction false} BelowRest(pieces: seq<Piece>, n: nat)
    requires Below(pieces, n) && pieces != []
    ensures Below(pieces[1..], n)
  {
  }

  // ---- what a tree declares -----------------------------------------------

  datatype Entry = Entry(name: string, decl: TypeDecl)

  /** The canonical lines of the statements at the top level of a tree, in declaration order. */
  function TreeLines(b: Body): seq<string> {
    match b
    case Tail(t) => LinesOf(t)
    case Statement(t, rest) => LinesOf(t) + TreeLines(rest)
    case Nested(_, _, rest) => TreeLines(rest)
    case Opaque(_, _, rest) => TreeLines(rest)
  }

  function LinesOf(t: string): seq<string> {
    if Trim(t) == "" then [] else [Normalize(t)]
  }

  /** The types a tree declares, each after those nested in it.  A header that declares nothing takes
      what is nested below it along. */
  function Entries(b: Body, package: string, outer: string): seq<Entry>
    decreases b, 0
  {
    match b
    case Tail(_) => []
    case Statement(_, rest) => Entries(rest, package, outer)
    case Nested(head, inner, rest) => NestedEntries(head, inner, package, outer) + Entries(rest, package, outer)
    case Opaque(head, t, rest) => OpaqueEntries(head, t, package, outer) + Entries(rest, package, outer)
  }

  /** What one nested declaration adds. */
  function NestedEntries(head: string, inner: Body, package: string, outer: string): seq<Entry>
    decreases inner, 1
  {
    match ReadDeclaration(Trim(head))
    case None => []
    case Some(h) => Entries(inner, package, Dotted(outer, h.name)) +
                    [Entry(QualifiedName(package, outer, h.name), Declared(h, TreeLines(inner)))]
  }

  function OpaqueEntries(head: string, t: string, package: string, outer: string): seq<Entry> {
    match (ReadDeclaration(Trim(head)), EnumMembers(t))
    case (Some(h), Some(members)) => [Entry(QualifiedName(package, outer, h.name), Declared(h, members))]
    case _ => []
  }

  function Enter(es: seq<Entry>, types: Surface): Surface {
    if es == [] then types else Enter(es[1..], types[es[0].name := es[0].decl])
  }

  /** Balanced text in which exactly the enums have bodies that are not cut, and no enum value is a
      malformed integer. */
  predicate WellFormed(b: Body) {
    match b
    case Tail(t) => Unstructured(t)
    case Statement(t, rest) => Unstructured(t) && WellFormed(rest)
    case Nested(head, inner, rest) =>
      Unstructured(head) && WellFormed(inner) && WellFormed(rest) && !DeclaresEnum(head)
    case Opaque(head, t, rest) =>
      Unstructured(head) && Matched(t, 0) && WellFormed(rest) && DeclaresEnum(head) && EnumMembers(t).Some?
  }

  predicate DeclaresEnum(head: string) {
    ReadDeclaration(Trim(head)).Some? && ReadDeclaration(Trim(head)).value.kind == Enum
  }

  lemma {:induction false} WellFormedIsBalanced(b: Body)
    requires WellFormed(b)
    ensures Balanced(b)
  {
    match b
    case Tail(_) =>
    case Statement(_, rest) => WellFormedIsBalanced(rest);
    case Nested(_, inner, rest) =>
      WellFormedIsBalanced(inner);
      WellFormedIsBalanced(rest);
    case Opaque(_, _, rest) => WellFormedIsBalanced(rest);
  }

  // ---- parsing undoes printing --------------------------------------------

  lemma {:induction false} UnstructuredIsClosed(t: string)
    requires Unstructured(t)
    ensures Closed(t)
  {
    if t != "" {
      UnstructuredIsClosed(t[if t[0] == '"' then CommentStripper.LiteralEnd(t, 1) else 1..]);
    }
  }

  lemma {:induction false} MembersOfFlush(t: string, pieces: seq<Piece>)
    ensures MembersOf(Flush(t) + pieces) == LinesOf(t) + MembersOf(pieces)
  {
    if Trim(t) == "" {
      assert Flush(t) + pieces == pieces && LinesOf(t) + MembersOf(pieces) == MembersOf(pieces);
    } else {
      NormalizeTrimmed(t);
      assert (Flush(t) + pieces)[1..] == pieces;
    }
  }

  lemma {:induction false} MembersOfDecl(p: Piece, pieces: seq<Piece>)
    requires p.Decl?
    ensures MembersOf([p] + pieces) == MembersOf(pieces)
  {
    assert ([p] + pieces)[1..] == pieces;
  }

  /** Members come out canonical and in declaration order. */
  lemma {:induction false} MembersOfTree(b: Body)
    ensures MembersOf(Pieces(b)) == TreeLines(b)
  {
    match b
    case Tail(t) =>
      MembersOfFlush(t, []);
      assert Flush(t) + [] == Flush(t) && LinesOf(t) + [] == LinesOf(t);
    case Statement(t, rest) =>
      MembersOfFlush(t, Pieces(rest));
      MembersOfTree(rest);
    case Nested(head, inner, rest) =>
      MembersOfDecl(Decl(Trim(head), Print(inner)), Pieces(rest));
      MembersOfTree(rest);
    case Opaque(head, t, rest) =>
      MembersOfDecl(Decl(Trim(head), t), Pieces(rest));
      MembersOfTree(rest);
  }

  lemma {:induction false} EnterBoth(a: seq<Entry>, b: seq<Entry>, types: Surface)
    ensures Enter(a + b, types) == Enter(b, Enter(a, types))
  {
    if a == [] {
      assert a + b == b;
    } else {
      assert (a + b)[1..] == a[1..] + b;
      EnterBoth(a[1..], b, types[a[0].name := a[0].decl]);
    }
  }

  lemma {:induction false} EnterOne(e: Entry, types: Surface)
    ensures Enter([e], types) == types[e.name := e.decl]
  {
    assert [e][1..] == [];
  }

  lemma {:induction false} ReadAfterFlush(t: string, pieces: seq<Piece>, n: nat, package: string, outer: string, types: Surface)
    requires Below(Flush(t) + pieces, n) && Below(pieces, n)
    ensures ReadNested(Flush(t) + pieces, n, package, outer, types) == ReadNested(pieces, n, package, outer, types)
  {
    if Trim(t) == "" {
      assert Flush(t) + pieces == pieces;
    } else {
      assert (Flush(t) + pieces)[1..] == pieces;
    }
  }

  lemma {:induction false} BelowParts(a: seq<Piece>, b: seq<Piece>, n: nat)
    requires Below(a + b, n)
    ensures Below(b, n)
  {
    forall i | 0 <= i < |b| && b[i].Decl? ensures |b[i].body| < n {
      assert b[i] == (a + b)[|a| + i];
    }
  }

  lemma {:induction false} ReadAfterDecl(p: Piece, pieces: seq<Piece>, n: nat, package: string, outer: string, types: Surface, ts: Surface)
    requires p.Decl? && Below([p] + pieces, n) && Below(pieces, n)
    requires ReadType(p.header, p.body, package, outer, types) == Some(ts)
    ensures ReadNested([p] + pieces, n, package, outer, types) == ReadNested(pieces, n, package, outer, ts)
  {
    assert ([p] + pieces)[1..] == pieces;
  }

  /** The declarations nested in a printed tree are read as the tree declares them. */
  lemma {:induction false} ReadTree(b: Body, n: nat, package: string, outer: string, types: Surface)
    requires WellFormed(b) && Below(Pieces(b), n)
    ensures ReadNested(Pieces(b), n, package, outer, types) == Some(Enter(Entries(b, package, outer), types))
    decreases b, 0
  {
    match b
    case Tail(t) =>
      assert Flush(t) + [] == Flush(t);
      ReadAfterFlush(t, [], n, package, outer, types);
    case Statement(t, rest) =>
      BelowParts(Flush(t), Pieces(rest), n);
      ReadAfterFlush(t, Pieces(rest), n, package, outer, types);
      ReadTree(rest, n, package, outer, types);
    case Nested(head, inner, rest) =>
      var p := Decl(Trim(head), Print(inner));
      var es := NestedEntries(head, inner, package, outer);
      BelowParts([p], Pieces(rest), n);
      ReadNestedTree(head, inner, package, outer, types);
      ReadAfterDecl(p, Pieces(rest), n, package, outer, types, Enter(es, types));
      ReadTree(rest, n, package, outer, Enter(es, types));
      EnterBoth(es, Entries(rest, package, outer), types);
    case Opaque(head, t, rest) =>
      var p := Decl(Trim(head), t);
      var es := OpaqueEntries(head, t, package, outer);
      BelowParts([p], Pieces(rest), n);
      EnterOne(es[0], types);
      ReadAfterDecl(p, Pieces(rest), n, package, outer, types, Enter(es, types));
      ReadTree(rest, n, package, outer, Enter(es, types));
      EnterBoth(es, Entries(rest, package, outer), types);
  }

  lemma {:induction false} ReadNestedTree(head: string, inner: Body, package: string, outer: string, types: Surface)
    requires WellFormed(inner) && !DeclaresEnum(head)
    ensures ReadType(Trim(head), Print(inner), package, outer, types) ==
            Some(Enter(NestedEntries(head, inner, package, outer), types))
    decreases inner, 1
  {
    var d := ReadDeclaration(Trim(head));
    if d.Some? {
      var h, body := d.value, Print(inner);
      var es := Entries(inner, package, Dotted(outer, h.name));
      WellFormedIsBalanced(inner);
      SplitUndoesPrint(inner);
      NestedIsShorter("", body);
      MembersOfTree(inner);
      ReadTree(inner, |body|, package, Dotted(outer, h.name), types);
      ReadStructure(Trim(head), h, body, package, outer, types, Enter(es, types));
      EnterLast(es, Entry(QualifiedName(package, outer, h.name), Declared(h, TreeLines(inner))), types);
    }
  }

  lemma {:induction false} ReadStructure(header: string, h: Header, body: string, package: string, outer: string, types: Surface, ts: Surface)
    requires ReadDeclaration(header) == Some(h) && h.kind != Enum && Below(Split("", body), |body|)
    requires ReadNested(Split("", body), |body|, package, Dotted(outer, h.name), types) == Some(ts)
    ensures ReadType(header, body, package, outer, types) ==
            Some(ts[QualifiedName(package, outer, h.name) := Declared(h, MembersOf(Split("", body)))])
  {
  }

  lemma {:induction false} EnterLast(es: seq<Entry>, e: Entry, types: Surface)
    ensures Enter(es + [e], types) == Enter(es, types)[e.name := e.decl]
  {
    EnterBoth(es, [e], types);
    EnterOne(e, Enter(es, types));
  }
}
