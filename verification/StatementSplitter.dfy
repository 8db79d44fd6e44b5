/** Cutting a declaration body into statements and nested declarations. */
module StatementSplitter {
  import opened Basics
  import opened Headers
  import opened CommentStripper

  datatype Piece = Stmt(text: string) | Decl(header: string, body: string)

  // ---- the scanner --------------------------------------------------------

  /** What a brace does to the nesting depth. */
  function Deeper(depth: nat, c: char): nat {
    if c == '{' then depth + 1 else if c == '}' && depth > 0 then depth - 1 else depth
  }

  /** How far the matching closing brace reaches; all of `t` when there is none. */
  function MatchLength(t: string, depth: nat): (n: nat)
    ensures n <= |t| && (depth > 0 && t != "" ==> n > 0)
  {
    if t == "" || depth == 0 then 0
    else if t[0] == '"' then LiteralEnd(t, 1) + MatchLength(t[LiteralEnd(t, 1)..], depth)
    else 1 + MatchLength(t[1..], Deeper(depth, t[0]))
  }

  /** The text inside braces that open just before `t`: one character less than the match.  When the
      closing brace is missing, that character is the last one of the text. */
  function Inside(t: string): (r: string)
    ensures |r| <= |t|
  {
    var m := MatchLength(t, 1);
    if m == 0 then "" else t[..m - 1]
  }

  /** A buffer becomes a statement unless it is blank. */
  function Flush(buf: string): seq<Piece> {
    if Trim(buf) == "" then [] else [Stmt(Trim(buf))]
  }

  function Split(buf: string, t: string): seq<Piece>
    decreases |t|
  {
    if t == "" then Flush(buf)
    else if t[0] == '"' then Split(buf + t[..LiteralEnd(t, 1)], t[LiteralEnd(t, 1)..])
    else if t[0] == '{' then
      [Decl(Trim(buf), Inside(t[1..]))] + Split("", t[1..][MatchLength(t[1..], 1)..])
    else if t[0] == ';' then Flush(buf) + Split("", t[1..])
    else Split(buf + [t[0]], t[1..])
  }

  // ---- the loops ----------------------------------------------------------

  method MatchBrace(text: string, i: nat) returns (j: nat)
    requires i <= |text|
    ensures i <= j <= |text| && j == i + MatchLength(text[i..], 1)
  {
    j := i;
    var depth: nat := 1;
    while j < |text| && depth > 0
      invariant i <= j <= |text|
      invariant i + MatchLength(text[i..], 1) == j + MatchLength(text[j..], depth)
      decreases |text| - j
    {
      if text[j] == '"' {
        MatchAtLiteral(text, j, depth);
        j := StringEnd(text, j);
      } else {
        MatchAtPlain(text, j, depth);
        depth := Deeper(depth, text[j]);
        j := j + 1;
      }
    }
  }

  lemma {:induction false} MatchAtLiteral(text: string, j: nat, depth: nat)
    requires j < |text| && depth > 0 && text[j] == '"'
    ensures var e := LiteralEnd(text, j + 1); j + MatchLength(text[j..], depth) == e + MatchLength(text[e..], depth)
  {
    LiteralEndShift(text, j, 1);
    DropDrop(text, j, LiteralEnd(text, j + 1));
  }

  lemma {:induction false} MatchAtPlain(text: string, j: nat, depth: nat)
    requires j < |text| && depth > 0 && text[j] != '"'
    ensures MatchLength(text[j..], depth) == 1 + MatchLength(text[j + 1..], Deeper(depth, text[j]))
  {
    DropDrop(text, j, j + 1);
  }

  method SplitStatements(body: string) returns (pieces: seq<Piece>)
    ensures pieces == Split("", body)
  {
    pieces := [];
    var buf, i := "", 0;
    assert body[0..] == body;
    while i < |body|
      invariant 0 <= i <= |body|
      invariant Split("", body) == pieces + Split(buf, body[i..])
      decreases |body| - i
    {
      if body[i] == '"' {
        var j := StringEnd(body, i);
        SplitAtLiteral(body, i, buf);
        buf := buf + body[i..j];
        i := j;
      } else if body[i] == '{' {
        var j := MatchBrace(body, i + 1);
        SplitAtBrace(body, i, buf, j);
        var piece := [Decl(Trim(buf), if j == i + 1 then "" else body[i + 1..j - 1])];
        Regroup(pieces, piece, Split("", body[j..]));
        pieces := pieces + piece;
        buf := "";
        i := j;
      } else if body[i] == ';' {
        SplitAtSemicolon(body, i, buf);
        Regroup(pieces, Flush(buf), Split("", body[i + 1..]));
        pieces := pieces + Flush(buf);
        buf := "";
        i := i + 1;
      } else {
        DropDrop(body, i, i + 1);
        buf := buf + [body[i]];
        i := i + 1;
      }
    }
    assert body[|body|..] == "";
    pieces := pieces + Flush(buf);
  }

  lemma {:induction false} SplitAtLiteral(body: string, i: nat, buf: string)
    requires i < |body| && body[i] == '"'
    ensures var e := LiteralEnd(body, i + 1); Split(buf, body[i..]) == Split(buf + body[i..e], body[e..])
  {
    var e := LiteralEnd(body, i + 1);
    LiteralEndShift(body, i, 1);
    DropDrop(body, i, e);
    TakeOfDrop(body, i, e);
  }

  lemma {:induction false} SplitAtSemicolon(body: string, i: nat, buf: string)
    requires i < |body| && body[i] == ';'
    ensures Split(buf, body[i..]) == Flush(buf) + Split("", body[i + 1..])
  {
    DropDrop(body, i, i + 1);
  }

  lemma {:induction false} SplitAtBrace(body: string, i: nat, buf: string, j: nat)
    requires i < |body| && body[i] == '{' && j == i + 1 + MatchLength(body[i + 1..], 1)
    ensures i + 1 <= j <= |body|
    ensures Split(buf, body[i..]) == [Decl(Trim(buf), if j == i + 1 then "" else body[i + 1..j - 1])] + Split("", body[j..])
  {
    DropDrop(body, i, i + 1);
    DropDrop(body, i + 1, j);
    if j > i + 1 {
      TakeOfDrop(body, i + 1, j - 1);
    }
  }

  // ---- matching braces ----------------------------------------------------

  /** The brace that closes `depth` open ones stands at `k`, literals not counted. */
  predicate ClosesAt(t: string, depth: nat, k: int)
    decreases |t|
  {
    t != "" && depth > 0 && 0 <= k &&
    if t[0] == '"' then LiteralEnd(t, 1) <= k && ClosesAt(t[LiteralEnd(t, 1)..], depth, k - LiteralEnd(t, 1))
    else if Deeper(depth, t[0]) == 0 then k == 0
    else ClosesAt(t[1..], Deeper(depth, t[0]), k - 1)
  }

  lemma {:induction false} MatchFound(t: string, depth: nat, k: int)
    requires ClosesAt(t, depth, k)
    ensures 0 <= k < |t| && t[k] == '}' && MatchLength(t, depth) == k + 1
    decreases |t|
  {
    if t[0] == '"' {
      MatchFound(t[LiteralEnd(t, 1)..], depth, k - LiteralEnd(t, 1));
    } else if Deeper(depth, t[0]) != 0 {
      MatchFound(t[1..], Deeper(depth, t[0]), k - 1);
    }
  }

  lemma {:induction false} MatchMissing(t: string, depth: nat)
    requires depth > 0 && forall k :: !ClosesAt(t, depth, k)
    ensures MatchLength(t, depth) == |t|
    decreases |t|
  {
    if t != "" {
      if t[0] == '"' {
        var e := LiteralEnd(t, 1);
        forall k ensures !ClosesAt(t[e..], depth, k) {
          assert !ClosesAt(t, depth, k + e);
        }
        MatchMissing(t[e..], depth);
      } else {
        assert !ClosesAt(t, depth, 0);
        forall k ensures !ClosesAt(t[1..], Deeper(depth, t[0]), k) {
          assert !ClosesAt(t, depth, k + 1);
        }
        MatchMissing(t[1..], Deeper(depth, t[0]));
      }
    }
  }

  /** With a matching brace, the text inside is all that comes before it; without one, the text inside
      is all that is left but its last character. */
  lemma {:induction false} InsideIsBeforeMatch(t: string, k: int)
    ensures ClosesAt(t, 1, k) ==> 0 <= k < |t| && t[k] == '}' && Inside(t) == t[..k]
    ensures (forall j :: !ClosesAt(t, 1, j)) ==> Inside(t) == if t == "" then "" else t[..|t| - 1]
  {
    if ClosesAt(t, 1, k) {
      MatchFound(t, 1, k);
    }
    if forall j :: !ClosesAt(t, 1, j) {
      MatchMissing(t, 1);
    }
  }

  // ---- nested bodies are shorter ------------------------------------------

  predicate Below(pieces: seq<Piece>, n: nat) {
    forall i :: 0 <= i < |pieces| && pieces[i].Decl? ==> |pieces[i].body| < n
  }

  /** Every nested body is strictly shorter than the text it was cut from. */
  lemma {:induction false} NestedIsShorter(buf: string, t: string)
    ensures Below(Split(buf, t), |t|)
    decreases |t|
  {
    if t != "" {
      if t[0] == '"' {
        NestedIsShorter(buf + t[..LiteralEnd(t, 1)], t[LiteralEnd(t, 1)..]);
      } else if t[0] == '{' {
        NestedIsShorter("", t[1..][MatchLength(t[1..], 1)..]);
      } else if t[0] == ';' {
        NestedIsShorter("", t[1..]);
      } else {
        NestedIsShorter(buf + [t[0]], t[1..]);
      }
    }
  }

  // ---- text without structure ---------------------------------------------

  /** The literal whose scan has reached `j` is closed. */
  predicate IsClosed(s: string, j: nat)
    decreases |s| - j
  {
    j < |s| && (s[j] == '"' || IsClosed(s, if s[j] == '\\' then j + 2 else j + 1))
  }

  /** No structure outside string literals, all of which are closed. */
  predicate Unstructured(t: string) {
    t == "" ||
    if t[0] == '"' then IsClosed(t, 1) && Unstructured(t[LiteralEnd(t, 1)..])
    else t[0] != '{' && t[0] != '}' && t[0] != ';' && Unstructured(t[1..])
  }

  lemma {:induction false} ClosedLiteral(s: string, u: string, j: nat)
    requires IsClosed(s, j)
    ensures LiteralEnd(s + u, j) == LiteralEnd(s, j) && IsClosed(s + u, j)
    decreases |s| - j
  {
    if s[j] != '"' {
      ClosedLiteral(s, u, if s[j] == '\\' then j + 2 else j + 1);
    }
  }

  lemma {:induction false} DropLeft(t: string, u: string, k: nat)
    requires k <= |t|
    ensures (t + u)[k..] == t[k..] + u && (t + u)[..k] == t[..k]
  {
  }

  lemma {:induction false} PutBack(buf: string, t: string, k: nat)
    requires k <= |t|
    ensures buf + t[..k] + t[k..] == buf + t
  {
  }

  /** Text without structure goes into the buffer whole. */
  lemma {:induction false} SplitUnstructured(buf: string, t: string, u: string)
    requires Unstructured(t)
    ensures Split(buf, t + u) == Split(buf + t, u)
    decreases |t|
  {
    if t == "" {
      assert t + u == u && buf + t == buf;
    } else {
      var k := if t[0] == '"' then LiteralEnd(t, 1) else 1;
      if t[0] == '"' {
        ClosedLiteral(t, u, 1);
      }
      DropLeft(t, u, k);
      SplitUnstructured(buf + t[..k], t[k..], u);
      PutBack(buf, t, k);
      assert t[..1] == [t[0]];
    }
  }

  /** It does not move the nesting depth. */
  lemma {:induction false} MatchUnstructured(t: string, u: string, depth: nat)
    requires Unstructured(t) && depth > 0
    ensures MatchLength(t + u, depth) == |t| + MatchLength(u, depth)
    decreases |t|
  {
    if t == "" {
      assert t + u == u;
    } else if t[0] == '"' {
      ClosedLiteral(t, u, 1);
      DropLeft(t, u, LiteralEnd(t, 1));
      MatchUnstructured(t[LiteralEnd(t, 1)..], u, depth);
    } else {
      DropLeft(t, u, 1);
      MatchUnstructured(t[1..], u, depth);
    }
  }

  /** Every literal of `t` is closed, and its braces match but for `depth` closing ones. */
  predicate Matched(t: string, depth: nat) {
    if t == "" then depth == 0
    else if t[0] == '"' then IsClosed(t, 1) && Matched(t[LiteralEnd(t, 1)..], depth)
    else if t[0] == '{' then Matched(t[1..], depth + 1)
    else if t[0] == '}' then depth > 0 && Matched(t[1..], depth - 1)
    else Matched(t[1..], depth)
  }

  /** Scanning matched text changes the depth by its unmatched braces. */
  lemma {:induction false} MatchMatched(t: string, k: nat, u: string, depth: nat)
    requires Matched(t, k) && depth > 0
    ensures MatchLength(t + u, depth + k) == |t| + MatchLength(u, depth)
    decreases |t|
  {
    if t == "" {
      assert t + u == u;
    } else if t[0] == '"' {
      ClosedLiteral(t, u, 1);
      DropLeft(t, u, LiteralEnd(t, 1));
      MatchMatched(t[LiteralEnd(t, 1)..], k, u, depth);
    } else {
      DropLeft(t, u, 1);
      MatchMatched(t[1..], if t[0] == '{' then k + 1 else if t[0] == '}' then k - 1 else k, u, depth);
    }
  }

  lemma {:induction false} MatchText(t: string, u: string, depth: nat)
    requires Matched(t, 0) && depth > 0
    ensures MatchLength(t + u, depth) == |t| + MatchLength(u, depth)
  {
    MatchMatched(t, 0, u, depth);
  }

  // ---- declaration trees --------------------------------------------------

  /** The text of a declaration body as a tree, in any layout: statements, nested declarations, and a
      tail after the last of them.  An `Opaque` declaration has text in its braces that is not cut, matched braces included. */
  datatype Body =
    | Tail(text: string)
    | Statement(text: string, rest: Body)
    | Nested(head: string, inner: Body, rest: Body)
    | Opaque(head: string, text: string, rest: Body)

  function Print(b: Body): string {
    match b
    case Tail(t) => t
    case Statement(t, rest) => t + (";" + Print(rest))
    case Nested(h, inner, rest) => h + ("{" + (Print(inner) + ("}" + Print(rest))))
    case Opaque(h, t, rest) => h + ("{" + (t + ("}" + Print(rest))))
  }

  predicate Balanced(b: Body) {
    match b
    case Tail(t) => Unstructured(t)
    case Statement(t, rest) => Unstructured(t) && Balanced(rest)
    case Nested(h, inner, rest) => Unstructured(h) && Balanced(inner) && Balanced(rest)
    case Opaque(h, t, rest) => Unstructured(h) && Matched(t, 0) && Balanced(rest)
  }

  /** The top-level pieces of a tree, in order. */
  function Pieces(b: Body): seq<Piece> {
    match b
    case Tail(t) => Flush(t)
    case Statement(t, rest) => Flush(t) + Pieces(rest)
    case Nested(h, inner, rest) => [Decl(Trim(h), Print(inner))] + Pieces(rest)
    case Opaque(h, t, rest) => [Decl(Trim(h), t)] + Pieces(rest)
  }

  lemma {:induction false} MatchStep(c: char, u: string, depth: nat)
    requires c != '"' && depth > 0
    ensures MatchLength([c] + u, depth) == 1 + MatchLength(u, Deeper(depth, c))
  {
    assert ([c] + u)[1..] == u;
  }

  lemma {:induction false} Regroup4(a: string, b: string, c: string, u: string)
    ensures a + (b + c) + u == a + (b + (c + u))
  {
  }

  lemma {:induction false} Regroup6(h: string, o: string, i: string, c: string, r: string, u: string)
    ensures h + (o + (i + (c + r))) + u == h + (o + (i + (c + (r + u))))
  {
  }

  /** Printed braces match: scanning a printed tree comes out at the depth it went in. */
  lemma {:induction false} MatchPrinted(b: Body, u: string, depth: nat)
    requires Balanced(b) && depth > 0
    ensures MatchLength(Print(b) + u, depth) == |Print(b)| + MatchLength(u, depth)
  {
    match b
    case Tail(t) =>
      MatchUnstructured(t, u, depth);
    case Statement(t, rest) =>
      MatchPrinted(rest, u, depth);
      MatchSemicolon(t, Print(rest), u, depth);
    case Nested(h, inner, rest) =>
      MatchPrinted(rest, u, depth);
      MatchPrinted(inner, "}" + (Print(rest) + u), depth + 1);
      MatchBraces(h, Print(inner), Print(rest), u, depth);
    case Opaque(h, t, rest) =>
      MatchPrinted(rest, u, depth);
      MatchText(t, "}" + (Print(rest) + u), depth + 1);
      MatchBraces(h, t, Print(rest), u, depth);
  }

  lemma {:induction false} MatchSemicolon(t: string, rest: string, u: string, depth: nat)
    requires Unstructured(t) && depth > 0 && MatchLength(rest + u, depth) == |rest| + MatchLength(u, depth)
    ensures MatchLength(t + (";" + rest) + u, depth) == |t + (";" + rest)| + MatchLength(u, depth)
  {
    Regroup4(t, ";", rest, u);
    MatchUnstructured(t, ";" + (rest + u), depth);
    MatchStep(';', rest + u, depth);
  }

  lemma {:induction false} MatchBraces(h: string, inner: string, rest: string, u: string, depth: nat)
    requires Unstructured(h) && depth > 0
    requires MatchLength(inner + ("}" + (rest + u)), depth + 1) == |inner| + MatchLength("}" + (rest + u), depth + 1)
    requires MatchLength(rest + u, depth) == |rest| + MatchLength(u, depth)
    ensures MatchLength(h + ("{" + (inner + ("}" + rest))) + u, depth) ==
            |h + ("{" + (inner + ("}" + rest)))| + MatchLength(u, depth)
  {
    Regroup6(h, "{", inner, "}", rest, u);
    MatchUnstructured(h, "{" + (inner + ("}" + (rest + u))), depth);
    MatchStep('{', inner + ("}" + (rest + u)), depth);
    MatchStep('}', rest + u, depth + 1);
  }

  lemma {:induction false} SplitOpen(h: string, u: string)
    ensures Split(h, "{" + u) == [Decl(Trim(h), Inside(u))] + Split("", u[MatchLength(u, 1)..])
  {
    assert ("{" + u)[1..] == u;
  }

  lemma {:induction false} SplitHead(h: string, t: string)
    requires Unstructured(h)
    ensures Split("", h + ("{" + t)) == [Decl(Trim(h), Inside(t))] + Split("", t[MatchLength(t, 1)..])
  {
    SplitUnstructured("", h, "{" + t);
    assert "" + h == h;
    SplitOpen(h, t);
  }

  /** A declaration whose brace is matched is cut there. */
  lemma {:induction false} BodyEndsAtMatch(h: string, t: string, k: int)
    requires Unstructured(h) && ClosesAt(t, 1, k)
    ensures 0 <= k < |t| && Split("", h + ("{" + t)) == [Decl(Trim(h), t[..k])] + Split("", t[k + 1..])
  {
    SplitHead(h, t);
    InsideIsBeforeMatch(t, k);
    MatchFound(t, 1, k);
  }

  /** One whose brace is not matched takes all the rest, and its body loses the last character. */
  lemma {:induction false} UnclosedBodyLosesLast(h: string, t: string)
    requires Unstructured(h) && t != "" && forall j :: !ClosesAt(t, 1, j)
    ensures Split("", h + ("{" + t)) == [Decl(Trim(h), t[..|t| - 1])]
  {
    SplitHead(h, t);
    InsideIsBeforeMatch(t, 0);
    MatchMissing(t, 1);
    assert Split("", t[|t|..]) == [];
  }

  lemma {:induction false} CutAt(inner: string, rest: string)
    requires MatchLength(inner + ("}" + rest), 1) == |inner| + 1
    ensures var u := inner + ("}" + rest); Inside(u) == inner && u[MatchLength(u, 1)..] == rest
  {
  }

  /** A braced text whose end is the matching brace is cut out exactly. */
  lemma {:induction false} SplitBraces(h: string, inner: string, rest: string)
    requires Unstructured(h)
    requires MatchLength(inner + ("}" + rest), 1) == |inner| + 1
    ensures Split("", h + ("{" + (inner + ("}" + rest)))) == [Decl(Trim(h), inner)] + Split("", rest)
  {
    var u := inner + ("}" + rest);
    SplitUnstructured("", h, "{" + u);
    assert "" + h == h;
    SplitOpen(h, u);
    CutAt(inner, rest);
  }

  lemma {:induction false} MatchClose(rest: string)
    ensures MatchLength("}" + rest, 1) == 1
  {
    MatchStep('}', rest, 1);
  }

  /** Cutting undoes printing, at every level of any tree. */
  lemma {:induction false} SplitUndoesPrint(b: Body)
    requires Balanced(b)
    ensures Split("", Print(b)) == Pieces(b)
  {
    match b
    case Tail(t) =>
      SplitUnstructured("", t, "");
      assert t + "" == t && "" + t == t;
    case Statement(t, rest) =>
      SplitUndoesPrint(rest);
      SplitUnstructured("", t, ";" + Print(rest));
      assert "" + t == t;
      assert (";" + Print(rest))[1..] == Print(rest);
    case Nested(h, inner, rest) =>
      SplitUndoesPrint(rest);
      MatchPrinted(inner, "}" + Print(rest), 1);
      MatchClose(Print(rest));
      SplitBraces(h, Print(inner), Print(rest));
    case Opaque(h, t, rest) =>
      SplitUndoesPrint(rest);
      MatchMatched(t, 0, "}" + Print(rest), 1);
      MatchClose(Print(rest));
      SplitBraces(h, t, Print(rest));
  }
}
