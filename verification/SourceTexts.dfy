/** Every text with closed literals and matched braces is the print of a declaration tree, so that what
    is proved of trees holds of texts. */
module SourceTexts {
  import opened Basics
  import opened SurfaceModel
  import opened CommentStripper
  import opened StatementSplitter
  import opened NormalForm
  import opened EnumBody
  import opened DeclarationParser
  import opened SourceDump
  import SurfaceDump

  predicate IsStructure(c: char) {
    c == '{' || c == '}' || c == ';'
  }

  /** How far `t` goes without structure. */
  function PlainLength(t: string): (n: nat)
    ensures n <= |t| && (n < |t| ==> IsStructure(t[n]))
  {
    if t == "" || IsStructure(t[0]) then 0
    else if t[0] == '"' then LiteralEnd(t, 1) + PlainLength(t[LiteralEnd(t, 1)..])
    else 1 + PlainLength(t[1..])
  }

  /** The tree of a text: cut at its structure, enum bodies left whole. */
  function TreeOf(t: string): Body
    decreases |t|, 1
  {
    TreeFrom(t[..PlainLength(t)], t[PlainLength(t)..])
  }

  /** The tree of a text that is plain up to `r`. */
  function TreeFrom(p: string, r: string): Body
    decreases |r|, 0
  {
    if r == "" then Tail(p)
    else if r[0] == '{' then Braces(p, r[1..])
    else Statement(p, TreeOf(r[1..]))
  }

  function Braces(p: string, s: string): Body
    decreases |s|, 2
  {
    var rest := s[MatchLength(s, 1)..];
    if DeclaresEnum(p) then Opaque(p, Inside(s), TreeOf(rest)) else Nested(p, TreeOf(Inside(s)), TreeOf(rest))
  }

  lemma {:induction false} PrefixOfLiteral(t: string, x: string, e: nat)
    requires t != "" && t[0] == '"' && IsClosed(t, 1) && e == LiteralEnd(t, 1)
    ensures (t[..e] + x)[0] == '"' && IsClosed(t[..e] + x, 1) && LiteralEnd(t[..e] + x, 1) == e && (t[..e] + x)[e..] == x
  {
    LiteralAlone(t);
    LiteralThen(t[..e], x);
  }

  /** The text before the first structure is unstructured, and the rest stays matched. */
  lemma {:induction false} PlainPrefix(t: string, depth: nat)
    requires Matched(t, depth)
    ensures Unstructured(t[..PlainLength(t)]) && Matched(t[PlainLength(t)..], depth)
    decreases |t|
  {
    var n := PlainLength(t);
    if t == "" || IsStructure(t[0]) {
      assert t[..0] == "" && t[0..] == t;
    } else if t[0] == '"' {
      var e := LiteralEnd(t, 1);
      PlainPrefix(t[e..], depth);
      PrefixOfLiteral(t, t[e..][..n - e], e);
      assert t[..n] == t[..e] + t[e..][..n - e];
      DropDrop(t, e, n);
    } else {
      PlainPrefix(t[1..], depth);
      assert t[..n][1..] == t[1..][..n - 1];
      DropDrop(t, 1, n);
    }
  }

  /** A brace ends at `m`, with matched text before and after it. */
  predicate BraceEnds(s: string, a: nat, b: nat, m: nat) {
    a > 0 && 0 < m <= |s| && s[m - 1] == '}' && Matched(s[..m - 1], a - 1) && Matched(s[m..], b)
  }

  lemma {:induction false} LiteralInFront(s: string, e: nat, a: nat, b: nat, m: nat)
    requires s != "" && s[0] == '"' && IsClosed(s, 1) && e == LiteralEnd(s, 1) && BraceEnds(s[e..], a, b, m)
    ensures BraceEnds(s, a, b, e + m)
  {
    PrefixOfLiteral(s, s[e..][..m - 1], e);
    assert s[..e + m - 1] == s[..e] + s[e..][..m - 1];
    DropDrop(s, e, e + m);
  }

  lemma {:induction false} CharInFront(s: string, a: nat, b: nat, m: nat)
    requires s != "" && s[0] != '"' && a > 0 && BraceEnds(s[1..], Deeper(a, s[0]), b, m)
    ensures BraceEnds(s, a, b, 1 + m)
  {
    assert s[..m][1..] == s[1..][..m - 1];
    DropDrop(s, 1, 1 + m);
  }

  /** In matched text the matching brace is there. */
  lemma {:induction false} MatchSplits(s: string, a: nat, b: nat)
    requires Matched(s, a + b) && a > 0
    ensures BraceEnds(s, a, b, MatchLength(s, a))
    decreases |s|
  {
    if s[0] == '"' {
      var e := LiteralEnd(s, 1);
      MatchSplits(s[e..], a, b);
      LiteralInFront(s, e, a, b, MatchLength(s[e..], a));
    } else if s[0] == '}' && a == 1 {
      assert s[..0] == "";
    } else {
      MatchSplits(s[1..], Deeper(a, s[0]), b);
      CharInFront(s, a, b, MatchLength(s[1..], Deeper(a, s[0])));
    }
  }

  /** The three parts of a text that opens a brace. */
  lemma {:induction false} AroundBraces(p: string, s: string)
    requires MatchLength(s, 1) > 0 && s[MatchLength(s, 1) - 1] == '}'
    ensures p + ("{" + (Inside(s) + ("}" + s[MatchLength(s, 1)..]))) == p + ("{" + s)
  {
    var m := MatchLength(s, 1);
    assert s == s[..m - 1] + ("}" + s[m..]);
  }

  /** Printing the tree of a text gives the text back. */
  lemma {:induction false} TextIsPrinted(t: string)
    requires Matched(t, 0)
    ensures Balanced(TreeOf(t)) && Print(TreeOf(t)) == t
    decreases |t|, 1
  {
    var n := PlainLength(t);
    PlainPrefix(t, 0);
    assert t[..n] + t[n..] == t;
    FromIsPrinted(t[..n], t[n..]);
  }

  lemma {:induction false} FromIsPrinted(p: string, r: string)
    requires Unstructured(p) && Matched(r, 0) && (r == "" || IsStructure(r[0]))
    ensures Balanced(TreeFrom(p, r)) && Print(TreeFrom(p, r)) == p + r
    decreases |r|, 0
  {
    if r == "" {
      assert p + r == p;
    } else {
      assert r == [r[0]] + r[1..];
      if r[0] == ';' {
        TextIsPrinted(r[1..]);
      } else {
        BracesArePrinted(p, r[1..]);
      }
    }
  }

  lemma {:induction false} BracesArePrinted(p: string, s: string)
    requires Unstructured(p) && Matched(s, 1)
    ensures Balanced(Braces(p, s)) && Print(Braces(p, s)) == p + ("{" + s)
    decreases |s|, 2
  {
    MatchSplits(s, 1, 0);
    AroundBraces(p, s);
    TextIsPrinted(s[MatchLength(s, 1)..]);
    TextIsPrinted(Inside(s));
  }

  /** No enum of the tree has a malformed integer. */
  predicate EnumsReadable(b: Body) {
    match b
    case Tail(_) => true
    case Statement(_, rest) => EnumsReadable(rest)
    case Nested(_, inner, rest) => EnumsReadable(inner) && EnumsReadable(rest)
    case Opaque(_, t, rest) => EnumMembers(t).Some? && EnumsReadable(rest)
  }

  /** The tree of a text has enum bodies exactly where the parser sees an enum. */
  lemma {:induction false} TextIsWellFormed(t: string)
    requires Balanced(TreeOf(t))
    ensures WellFormed(TreeOf(t)) <==> EnumsReadable(TreeOf(t))
    decreases |t|, 1
  {
    var n := PlainLength(t);
    FromIsWellFormed(t[..n], t[n..]);
  }

  lemma {:induction false} FromIsWellFormed(p: string, r: string)
    requires Balanced(TreeFrom(p, r))
    ensures WellFormed(TreeFrom(p, r)) <==> EnumsReadable(TreeFrom(p, r))
    decreases |r|, 0
  {
    if r != "" && r[0] != '{' {
      TextIsWellFormed(r[1..]);
    } else if r != "" {
      BracesAreWellFormed(p, r[1..]);
    }
  }

  lemma {:induction false} BracesAreWellFormed(p: string, s: string)
    requires Balanced(Braces(p, s))
    ensures WellFormed(Braces(p, s)) <==> EnumsReadable(Braces(p, s))
    decreases |s|, 2
  {
    TextIsWellFormed(s[MatchLength(s, 1)..]);
    if !DeclaresEnum(p) {
      TextIsWellFormed(Inside(s));
    }
  }

  /** Any text with closed literals and matched braces is parsed into what its tree declares. */
  lemma {:induction false} ParseText(t: string, package: string, types: Surface)
    requires Matched(t, 0) && EnumsReadable(TreeOf(t))
    ensures ReadFile(Split("", t), package, types) == Some(Enter(FileEntries(TreeOf(t), package), types))
  {
    TextIsPrinted(t);
    TextIsWellFormed(t);
    ParseUndoesPrint(TreeOf(t), package, types);
  }

  /** Whatever such text is read, its dump is read back as the same types. */
  lemma {:induction false} TextRoundTrip(t: string, package: string, types: Surface)
    requires Matched(t, 0) && EnumsReadable(TreeOf(t)) && TidyTree(TreeOf(t)) && IsPath(package) && SurfaceDump.Printable(types)
    ensures ReadFile(Split("", t), package, types).Some?
    ensures var read := ReadFile(Split("", t), package, types).value;
      SurfaceDump.Printable(read) && SurfaceDump.ParseDump(SurfaceDump.DumpText(read)) == Some(read)
  {
    TextIsPrinted(t);
    TextIsWellFormed(t);
    SourceRoundTrip(TreeOf(t), package, types);
  }
}
