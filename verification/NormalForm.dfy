/** Laws of the canonical spacing: it is idempotent, changes nothing but white space outside string
    literals, and yields one trimmed line. */
module NormalForm {
  import opened Basics
  import opened SurfaceModel
  import opened Headers
  import opened CommentStripper
  import opened StatementSplitter
  import opened Normalizer

  // ---- settled code is settled --------------------------------------------

  /** Spaces are single and never next to punctuation. */
  predicate Tight(y: string) {
    y == "" ||
    (&& Tight(y[1..]) && (IsSpace(y[0]) ==> y[0] == ' ')
     && (|y| > 1 && y[0] == ' ' ==> !IsSpace(y[1]) && !IsPunctuation(y[1]))
     && (|y| > 1 && IsPunctuation(y[0]) ==> !IsSpace(y[1])))
  }

  lemma {:induction false} TidyFirst(s: string)
    requires s == "" || !IsSpace(s[0])
    ensures Tidy(s) == "" <==> s == ""
    ensures s != "" ==> Tidy(s)[0] == s[0]
  {
  }

  lemma {:induction false} TightOf(c: char, y: string)
    requires Tight(y) && (IsSpace(c) ==> c == ' ') && (c == ' ' && y != "" ==> !IsPunctuation(y[0]))
    requires c == ' ' || IsPunctuation(c) ==> y == "" || !IsSpace(y[0])
    ensures Tight([c] + y)
  {
    assert ([c] + y)[1..] == y;
  }

  lemma {:induction false} TidyIsTight(s: string)
    ensures Tight(Tidy(s))
    decreases |s|
  {
    if s != "" {
      TrimLeftShrinks(s[1..]);
      var k := SpaceRun(s);
      if k < |s| && IsPunctuation(s[k]) {
        var r := TrimLeft(s[k + 1..]);
        TrimLeftShrinks(s[k + 1..]);
        TrimLeftStops(s[k + 1..]);
        TidyIsTight(r);
        TidyFirst(r);
        TightOf(s[k], Tidy(r));
      } else if IsSpace(s[0]) {
        var r := TrimLeft(s[1..]);
        TrimLeftStops(s[1..]);
        TrimLeftIsDrop(s[1..]);
        TidyIsTight(r);
        TidyFirst(r);
        TightOf(' ', Tidy(r));
      } else {
        TidyIsTight(s[1..]);
        TightOf(s[0], Tidy(s[1..]));
      }
    }
  }

  lemma {:induction false} TidyPunctuation(p: char, r: string)
    requires IsPunctuation(p)
    ensures Tidy([p] + r) == [p] + Tidy(TrimLeft(r))
  {
    assert ([p] + r)[1..] == r;
  }

  lemma {:induction false} TidySpacedPunctuation(p: char, r: string)
    requires IsPunctuation(p)
    ensures Tidy(" " + ([p] + r)) == [p] + Tidy(TrimLeft(r))
  {
    var s := " " + ([p] + r);
    assert s[1..] == [p] + r && s[2..] == r;
    assert SpaceRun([p] + r) == 0;
  }

  lemma {:induction false} TidyPlain(c: char, r: string)
    requires !IsSpace(c) && !IsPunctuation(c)
    ensures Tidy([c] + r) == [c] + Tidy(r)
  {
    assert ([c] + r)[1..] == r;
  }

  lemma {:induction false} TidySpace(r: string)
    requires r == "" || !(IsSpace(r[0]) || IsPunctuation(r[0]))
    ensures Tidy(" " + r) == " " + Tidy(r)
  {
    assert (" " + r)[1..] == r;
  }

  lemma {:induction false} TrimLeftOfSpace(r: string)
    ensures TrimLeft(" " + r) == TrimLeft(r)
  {
    assert (" " + r)[1..] == r;
  }

  /** Leading spaces that spreading put before an equals sign do not count. */
  lemma {:induction false} TidySpreadTrimmed(y: string)
    requires y == "" || !IsSpace(y[0])
    ensures Tidy(TrimLeft(Spread(y))) == Tidy(Spread(y))
  {
    if y != "" && y[0] == '=' {
      var r := " " + Spread(y[1..]);
      assert Spread(y) == " " + ("=" + r);
      TrimLeftOfSpace("=" + r);
      TidySpacedPunctuation('=', r);
      TidyPunctuation('=', r);
    }
  }

  lemma {:induction false} SpreadFirst(y: string)
    requires y != "" && y[0] != '='
    ensures Spread(y) != "" && Spread(y)[0] == y[0]
  {
  }

  /** Tidying undoes spreading. */
  lemma {:induction false} TidyOfSpread(y: string)
    requires Tight(y)
    ensures Tidy(Spread(y)) == y
  {
    if y != "" {
      var c, z := y[0], y[1..];
      TidyOfSpread(z);
      assert y == [c] + z;
      if IsPunctuation(c) {
        TidySpreadTrimmed(z);
        TidyOfSpreadPunctuation(y);
      } else if c == ' ' {
        if z != "" {
          SpreadFirst(z);
        }
        TidySpace(Spread(z));
      } else {
        TidyPlain(c, Spread(z));
      }
    }
  }

  lemma {:induction false} TidyOfSpaced(c: char, w: string, r: string)
    requires IsPunctuation(c) && (w == [c] || w == [c] + " " || w == " " + [c] + " ")
    ensures Tidy(w + r) == [c] + Tidy(TrimLeft(r))
  {
    TrimLeftOfSpace(r);
    if w == [c] {
      TidyPunctuation(c, r);
    } else if w == [c] + " " {
      assert w + r == [c] + (" " + r);
      TidyPunctuation(c, " " + r);
    } else {
      assert w + r == " " + ([c] + (" " + r));
      TidySpacedPunctuation(c, " " + r);
    }
  }

  lemma {:induction false} TidyOfSpreadPunctuation(y: string)
    requires y != "" && IsPunctuation(y[0])
    ensures Tidy(Spread(y)) == [y[0]] + Tidy(TrimLeft(Spread(y[1..])))
  {
    assert ", " == [','] + " " && " = " == " " + ['='] + " " && "] " == [']'] + " ";
    TidyOfSpaced(y[0], Spaced(y[0], y[1..]), Spread(y[1..]));
  }

  lemma {:induction false} SettleIdempotent(s: string)
    ensures Settle(Settle(s)) == Settle(s)
  {
    TidyIsTight(s);
    TidyOfSpread(Tidy(s));
    SettleIsTwoPasses(s);
    SettleIsTwoPasses(Settle(s));
  }

  // ---- only white space changes -------------------------------------------

  lemma {:induction false} SqueezeAppend(a: string, b: string)
    ensures Squeeze(a + b) == Squeeze(a) + Squeeze(b)
  {
    if a == "" {
      assert a + b == b;
    } else {
      assert (a + b)[1..] == a[1..] + b;
      SqueezeAppend(a[1..], b);
    }
  }

  lemma {:induction false} SqueezeTrimLeft(s: string)
    ensures Squeeze(TrimLeft(s)) == Squeeze(s)
  {
    if s != "" && IsSpace(s[0]) {
      SqueezeTrimLeft(s[1..]);
    }
  }

  lemma {:induction false} SqueezeOne(c: char)
    ensures Squeeze([c]) == if IsSpace(c) then "" else [c]
  {
    assert [c][1..] == "";
  }

  lemma {:induction false} SqueezeTidy(s: string)
    ensures Squeeze(Tidy(s)) == Squeeze(s)
    decreases |s|
  {
    if s != "" {
      TrimLeftShrinks(s[1..]);
      var k := SpaceRun(s);
      if k < |s| && IsPunctuation(s[k]) {
        TrimLeftShrinks(s[k + 1..]);
        SqueezeTidy(TrimLeft(s[k + 1..]));
        SqueezeTrimLeft(s[k + 1..]);
        SqueezeTrimLeft(s);
        TrimLeftIsDrop(s);
        DropDrop(s, k, k + 1);
        SqueezeAppend([s[k]], Tidy(TrimLeft(s[k + 1..])));
        SqueezeOne(s[k]);
      } else if IsSpace(s[0]) {
        SqueezeTidy(TrimLeft(s[1..]));
        SqueezeTrimLeft(s[1..]);
        SqueezeAppend(" ", Tidy(TrimLeft(s[1..])));
        SqueezeOne(' ');
      } else {
        SqueezeTidy(s[1..]);
        SqueezeAppend([s[0]], Tidy(s[1..]));
        SqueezeOne(s[0]);
      }
    }
  }

  lemma {:induction false} SqueezeSpread(s: string)
    ensures Squeeze(Spread(s)) == Squeeze(s)
  {
    if s != "" {
      SqueezeSpread(s[1..]);
      var w := Spaced(s[0], s[1..]);
      SqueezeAppend(w, Spread(s[1..]));
      SqueezeOne(s[0]);
      SqueezeWide();
    }
  }

  lemma {:induction false} SqueezeWide()
    ensures Squeeze(", ") == "," && Squeeze(" = ") == "=" && Squeeze("] ") == "]"
  {
    assert ", "[1..] == " " && " "[1..] == "" && " = "[1..] == "= " && "= "[1..] == " " && "] "[1..] == " ";
  }

  lemma {:induction false} SqueezeSettle(s: string)
    ensures Squeeze(Settle(s)) == Squeeze(s)
  {
    SettleIsTwoPasses(s);
    SqueezeTidy(s);
    SqueezeSpread(Tidy(s));
  }

  // ---- statements with literals -------------------------------------------

  predicate NoQuote(s: string) {
    forall i :: 0 <= i < |s| ==> s[i] != '"'
  }

  /** Every literal of `t` is closed. */
  predicate Closed(t: string) {
    t == "" ||
    if t[0] == '"' then IsClosed(t, 1) && Closed(t[LiteralEnd(t, 1)..]) else Closed(t[1..])
  }

  /** One literal and nothing else. */
  predicate IsLiteral(l: string) {
    l != "" && l[0] == '"' && IsClosed(l, 1) && LiteralEnd(l, 1) == |l|
  }

  /** `t` without its white space outside literals. */
  function Substance(t: string): string {
    if t == "" then ""
    else if t[0] == '"' then t[..LiteralEnd(t, 1)] + Substance(t[LiteralEnd(t, 1)..])
    else (if IsSpace(t[0]) then "" else [t[0]]) + Substance(t[1..])
  }

  lemma {:induction false} ClosesPrefix(t: string, j: nat, n: nat)
    requires IsClosed(t, j) && LiteralEnd(t, j) <= n <= |t|
    ensures IsClosed(t[..n], j) && LiteralEnd(t[..n], j) == LiteralEnd(t, j)
    decreases |t| - j
  {
    if t[j] != '"' {
      ClosesPrefix(t, if t[j] == '\\' then j + 2 else j + 1, n);
    }
  }

  lemma {:induction false} LiteralAlone(t: string)
    requires t != "" && t[0] == '"' && IsClosed(t, 1)
    ensures IsLiteral(t[..LiteralEnd(t, 1)])
  {
    ClosesPrefix(t, 1, LiteralEnd(t, 1));
  }

  lemma {:induction false} LiteralThen(l: string, r: string)
    requires IsLiteral(l)
    ensures var t := l + r; t[0] == '"' && IsClosed(t, 1) && LiteralEnd(t, 1) == |l| && t[..|l|] == l && t[|l|..] == r
  {
    ClosedLiteral(l, r, 1);
  }

  lemma {:induction false} SettleAllLiteral(b: string, l: string, r: string)
    requires IsLiteral(l)
    ensures SettleAll(b, l + r) == Settle(b) + (l + SettleAll("", r))
  {
    LiteralThen(l, r);
  }

  lemma {:induction false} SettleAllCode(b: string, g: string, u: string)
    requires NoQuote(g)
    ensures SettleAll(b, g + u) == SettleAll(b + g, u)
    decreases |g|
  {
    if g == "" {
      assert g + u == u && b + g == b;
    } else {
      DropLeft(g, u, 1);
      PutBack(b, g, 1);
      assert g[..1] == [g[0]];
      SettleAllCode(b + [g[0]], g[1..], u);
    }
  }

  lemma {:induction false} SubstanceLiteral(l: string, r: string)
    requires IsLiteral(l)
    ensures Substance(l + r) == l + Substance(r)
    ensures Closed(l + r) <==> Closed(r)
  {
    LiteralThen(l, r);
  }

  lemma {:induction false} SubstanceCode(g: string, u: string)
    requires NoQuote(g)
    ensures Substance(g + u) == Squeeze(g) + Substance(u)
    ensures Closed(g + u) <==> Closed(u)
  {
    if g == "" {
      assert g + u == u;
    } else {
      DropLeft(g, u, 1);
      SubstanceCode(g[1..], u);
    }
  }

  lemma {:induction false} QuoteIsKept(s: string)
    ensures NoQuote(Squeeze(s)) <==> NoQuote(s)
  {
    if s != "" {
      QuoteIsKept(s[1..]);
      var w := if IsSpace(s[0]) then [] else [s[0]];
      NoQuoteAppend(w, Squeeze(s[1..]));
      NoQuoteAppend([s[0]], s[1..]);
      assert s == [s[0]] + s[1..];
    }
  }

  lemma {:induction false} NoQuoteAppend(a: string, b: string)
    ensures NoQuote(a + b) <==> NoQuote(a) && NoQuote(b)
  {
    if NoQuote(a + b) {
      assert forall i :: 0 <= i < |a| ==> a[i] == (a + b)[i];
      assert forall i :: 0 <= i < |b| ==> b[i] == (a + b)[|a| + i];
    }
  }

  lemma {:induction false} SettleNoQuote(s: string)
    requires NoQuote(s)
    ensures NoQuote(Settle(s))
  {
    SqueezeSettle(s);
    QuoteIsKept(s);
    QuoteIsKept(Settle(s));
  }

  lemma {:induction false} SettleAllOfCode(g: string)
    requires NoQuote(g)
    ensures SettleAll("", g) == Settle(g)
  {
    SettleAllCode("", g, "");
    assert g + "" == g && "" + g == g;
  }

  lemma {:induction false} SubstanceOfCode(g: string)
    requires NoQuote(g)
    ensures Substance(g) == Squeeze(g) && Closed(g)
  {
    SubstanceCode(g, "");
    assert g + "" == g && Squeeze(g) + "" == Squeeze(g);
  }

  /** A literal that is never closed runs to the end. */
  lemma {:induction false} UnclosedRunsOn(s: string, j: nat)
    requires !IsClosed(s, j)
    ensures LiteralEnd(s, j) == |s|
    decreases |s| - j
  {
    if j < |s| {
      UnclosedRunsOn(s, if s[j] == '\\' then j + 2 else j + 1);
    }
  }

  lemma {:induction false} SettleNothing()
    ensures Settle("") == "" && SettleAll("", "") == ""
  {
  }

  lemma {:induction false} SettleUnclosed(b: string, t: string)
    requires t != "" && t[0] == '"' && !IsClosed(t, 1)
    ensures SettleAll(b, t) == Settle(b) + t
  {
    UnclosedRunsOn(t, 1);
    SettleNothing();
    assert t[..|t|] == t && t[|t|..] == "" && t + "" == t;
  }

  /** Settling what is settled changes nothing. */
  lemma {:induction false} SettleAllIdempotent(b: string, t: string)
    requires NoQuote(b)
    ensures SettleAll("", SettleAll(b, t)) == SettleAll(b, t)
    decreases |t|
  {
    if t == "" {
      SettleNoQuote(b);
      SettleAllOfCode(Settle(b));
      SettleIdempotent(b);
    } else if t[0] == '"' && !IsClosed(t, 1) {
      ResettleUnclosed(b, t);
    } else if t[0] == '"' {
      var e := LiteralEnd(t, 1);
      SettleAllIdempotent("", t[e..]);
      LiteralAlone(t);
      ResettleLiteral(b, t[..e], SettleAll("", t[e..]));
    } else {
      SettleAllIdempotent(b + [t[0]], t[1..]);
    }
  }

  lemma {:induction false} ResettleUnclosed(b: string, t: string)
    requires NoQuote(b) && t != "" && t[0] == '"' && !IsClosed(t, 1)
    ensures SettleAll("", SettleAll(b, t)) == SettleAll(b, t)
  {
    SettleUnclosed(b, t);
    SettleNoQuote(b);
    SettleAllCode("", Settle(b), t);
    assert "" + Settle(b) == Settle(b);
    SettleUnclosed(Settle(b), t);
    SettleIdempotent(b);
  }

  lemma {:induction false} ResettleLiteral(b: string, l: string, r: string)
    requires NoQuote(b) && IsLiteral(l) && SettleAll("", r) == r
    ensures SettleAll("", Settle(b) + (l + r)) == Settle(b) + (l + r)
  {
    SettleNoQuote(b);
    SettleAllCode("", Settle(b), l + r);
    assert "" + Settle(b) == Settle(b);
    SettleAllLiteral(Settle(b), l, r);
    SettleIdempotent(b);
  }

  /** Settling keeps the substance. */
  lemma {:induction false} SettleAllSubstance(b: string, t: string)
    requires NoQuote(b) && Closed(t)
    ensures Substance(SettleAll(b, t)) == Squeeze(b) + Substance(t) && Closed(SettleAll(b, t))
    decreases |t|
  {
    SettleNoQuote(b);
    SqueezeSettle(b);
    if t == "" {
      SubstanceOfCode(Settle(b));
      assert Squeeze(b) + "" == Squeeze(b);
    } else if t[0] == '"' {
      var e := LiteralEnd(t, 1);
      var r := SettleAll("", t[e..]);
      SettleAllSubstance("", t[e..]);
      assert "" + Substance(t[e..]) == Substance(t[e..]);
      LiteralAlone(t);
      SubstanceLiteral(t[..e], r);
      SubstanceCode(Settle(b), t[..e] + r);
    } else {
      SettleAllSubstance(b + [t[0]], t[1..]);
      SqueezeAppend(b, [t[0]]);
      SqueezeOne(t[0]);
      Regroup(Squeeze(b), if IsSpace(t[0]) then "" else [t[0]], Substance(t[1..]));
    }
  }

  // ---- trimming -----------------------------------------------------------

  lemma {:induction false} SubstanceTrimLeft(x: string)
    requires Closed(x)
    ensures Substance(TrimLeft(x)) == Substance(x) && Closed(TrimLeft(x))
  {
    if x != "" && IsSpace(x[0]) {
      SubstanceTrimLeft(x[1..]);
    }
  }

  lemma {:induction false} EndsWithin(s: string, c: char, j: nat)
    requires IsClosed(s + [c], j) && c != '"'
    ensures IsClosed(s, j) && LiteralEnd(s, j) == LiteralEnd(s + [c], j)
    decreases |s| - j
  {
    var t := s + [c];
    if j < |s| && s[j] != '"' {
      EndsWithin(s, c, if s[j] == '\\' then j + 2 else j + 1);
    }
  }

  lemma {:induction false} SubstanceLastSpace(s: string, c: char)
    requires Closed(s + [c]) && IsSpace(c)
    ensures Closed(s) && Substance(s + [c]) == Substance(s)
  {
    var t := s + [c];
    if s == "" {
      assert t[1..] == "";
    } else if s[0] == '"' {
      EndsWithin(s, c, 1);
      DropLeft(s, [c], LiteralEnd(s, 1));
      SubstanceLastSpace(s[LiteralEnd(s, 1)..], c);
    } else {
      DropLeft(s, [c], 1);
      SubstanceLastSpace(s[1..], c);
    }
  }

  lemma {:induction false} SubstanceTrimRight(x: string)
    requires Closed(x)
    ensures Substance(TrimRight(x)) == Substance(x) && Closed(TrimRight(x))
  {
    if x != "" && IsSpace(x[|x| - 1]) {
      var s := x[..|x| - 1];
      assert x == s + [x[|x| - 1]];
      SubstanceLastSpace(s, x[|x| - 1]);
      SubstanceTrimRight(s);
    }
  }

  lemma {:induction false} SubstanceTrim(x: string)
    requires Closed(x)
    ensures Substance(Trim(x)) == Substance(x) && Closed(Trim(x))
  {
    SubstanceTrimLeft(x);
    SubstanceTrimRight(TrimLeft(x));
  }

  /** Only white space outside literals changes; what is inside a literal always shows. */
  lemma {:induction false} NormalizeKeepsSubstance(stmt: string)
    requires Closed(stmt)
    ensures Substance(Normalize(stmt)) == Substance(stmt) && Closed(Normalize(stmt))
  {
    SettleAllSubstance("", stmt);
    assert "" + Substance(stmt) == Substance(stmt);
    SubstanceTrim(SettleAll("", stmt));
  }

  // ---- outer white space --------------------------------------------------

  /** `b` is `a`, but perhaps for one more space. */
  predicate SpaceMore(a: string, b: string, left: bool) {
    b == a || b == if left then " " + a else a + " "
  }

  lemma {:induction false} SpreadLeft(y: string)
    ensures Spread(" " + y) == " " + Spread(y)
  {
    assert (" " + y)[1..] == y;
  }

  lemma {:induction false} SpreadRight(y: string)
    ensures Spread(y + " ") == Spread(y) + " "
  {
    if y == "" {
      assert " "[1..] == "" && y + " " == " ";
    } else {
      DropLeft(y, " ", 1);
      SpreadRight(y[1..]);
      assert Spread(y + " ") == Spaced(y[0], y[1..] + " ") + Spread(y[1..] + " ");
      Regroup(Spaced(y[0], y[1..]), Spread(y[1..]), " ");
    }
  }

  lemma {:induction false} TidyLeft(c: char, b: string)
    requires IsSpace(c)
    ensures SpaceMore(Tidy(b), Tidy([c] + b), true)
  {
    var s := [c] + b;
    assert s[1..] == b;
    TrimLeftIsDrop(b);
    var k := SpaceRun(b);
    if b != "" && !IsSpace(b[0]) {
      assert k == 0 && TrimLeft(b) == b;
    }
    if k < |b| && IsPunctuation(b[k]) {
      assert s[k + 1] == b[k] && s[k + 2..] == b[k + 1..];
    }
  }

  lemma {:induction false} TrimLeftLonger(u: string, c: char)
    requires IsSpace(c)
    ensures TrimLeft(u + [c]) == if TrimLeft(u) == "" then "" else TrimLeft(u) + [c]
  {
    if u == "" {
      assert [c][1..] == "" && u + [c] == [c];
    } else {
      DropLeft(u, [c], 1);
      TrimLeftLonger(u[1..], c);
    }
  }

  lemma {:induction false} SpaceRunLonger(b: string, c: char)
    requires SpaceRun(b) < |b|
    ensures SpaceRun(b + [c]) == SpaceRun(b)
  {
    if IsSpace(b[0]) {
      DropLeft(b, [c], 1);
      SpaceRunLonger(b[1..], c);
    }
  }

  lemma {:induction false} TidyRight(b: string, c: char)
    requires IsSpace(c)
    ensures SpaceMore(Tidy(b), Tidy(b + [c]), false)
    decreases |b|, 0
  {
    if TrimLeft(b) == "" {
      TrimLeftLonger(b, c);
      TidyBlank(b);
      TidyBlank(b + [c]);
    } else {
      TrimLeftIsDrop(b);
      SpaceRunLonger(b, c);
      DropLeft(b, [c], 1);
      var k := SpaceRun(b);
      if IsPunctuation(b[k]) {
        DropLeft(b, [c], k + 1);
        TidyRightTrimmed(b[k + 1..], c);
      } else if IsSpace(b[0]) {
        TidyRightTrimmed(b[1..], c);
      } else {
        TidyRight(b[1..], c);
      }
    }
  }

  lemma {:induction false} TidyRightTrimmed(u: string, c: char)
    requires IsSpace(c)
    ensures SpaceMore(Tidy(TrimLeft(u)), Tidy(TrimLeft(u + [c])), false)
    decreases |u|, 1
  {
    TrimLeftLonger(u, c);
    TrimLeftShrinks(u);
    if TrimLeft(u) != "" {
      TidyRight(TrimLeft(u), c);
    }
  }

  lemma {:induction false} TidyBlank(b: string)
    requires TrimLeft(b) == ""
    ensures Tidy(b) == if b == "" then "" else " "
  {
    if b != "" {
      TrimLeftIsDrop(b);
      assert TrimLeft(b) == TrimLeft(b[1..]);
    }
  }

  lemma {:induction false} SettleLeft(c: char, b: string)
    requires IsSpace(c)
    ensures SpaceMore(Settle(b), Settle([c] + b), true)
  {
    SettleIsTwoPasses(b);
    SettleIsTwoPasses([c] + b);
    TidyLeft(c, b);
    SpreadLeft(Tidy(b));
  }

  lemma {:induction false} SettleRight(b: string, c: char)
    requires IsSpace(c)
    ensures SpaceMore(Settle(b), Settle(b + [c]), false)
  {
    SettleIsTwoPasses(b);
    SettleIsTwoPasses(b + [c]);
    TidyRight(b, c);
    SpreadRight(Tidy(b));
  }

  lemma {:induction false} SettleAllLeft(c: char, b: string, t: string)
    requires IsSpace(c)
    ensures SpaceMore(SettleAll(b, t), SettleAll([c] + b, t), true)
    decreases |t|
  {
    SettleLeft(c, b);
    if t != "" && t[0] != '"' {
      SettleAllLeft(c, b + [t[0]], t[1..]);
      assert [c] + (b + [t[0]]) == [c] + b + [t[0]];
    } else if t != "" {
      var u := t[..LiteralEnd(t, 1)] + SettleAll("", t[LiteralEnd(t, 1)..]);
      Regroup(" ", Settle(b), u);
    }
  }

  /** `b` is `a`, but perhaps for one more white space at its end. */
  predicate LongerBySpace(a: string, b: string) {
    b == a || (|b| == |a| + 1 && b[..|a|] == a && IsSpace(b[|a|]))
  }

  lemma {:induction false} UnclosedLonger(s: string, c: char, j: nat)
    requires !IsClosed(s, j) && c != '"'
    ensures !IsClosed(s + [c], j)
    decreases |s| - j
  {
    if j < |s| {
      UnclosedLonger(s, c, if s[j] == '\\' then j + 2 else j + 1);
    }
  }

  lemma {:induction false} LongerAfter(p: string, a: string, b: string)
    requires LongerBySpace(a, b)
    ensures LongerBySpace(p + a, p + b)
  {
    if b != a {
      assert (p + b)[..|p + a|] == p + b[..|a|];
    }
  }

  lemma {:induction false} SettleUnclosedRight(b: string, t: string, c: char)
    requires IsSpace(c) && t != "" && t[0] == '"' && !IsClosed(t, 1)
    ensures LongerBySpace(SettleAll(b, t), SettleAll(b, t + [c]))
  {
    UnclosedLonger(t, c, 1);
    SettleUnclosed(b, t);
    SettleUnclosed(b, t + [c]);
    LongerAfter(Settle(b), t, t + [c]);
  }

  lemma {:induction false} SettleAllRight(b: string, t: string, c: char)
    requires IsSpace(c)
    ensures LongerBySpace(SettleAll(b, t), SettleAll(b, t + [c]))
    decreases |t|
  {
    if t == "" {
      SettleRight(b, c);
      assert t + [c] == [c] && [c][1..] == "";
      assert (Settle(b) + " ")[..|Settle(b)|] == Settle(b);
    } else if t[0] == '"' && !IsClosed(t, 1) {
      SettleUnclosedRight(b, t, c);
    } else if t[0] == '"' {
      var e := LiteralEnd(t, 1);
      ClosedLiteral(t, [c], 1);
      DropLeft(t, [c], e);
      SettleAllRight("", t[e..], c);
      LongerAfter(t[..e], SettleAll("", t[e..]), SettleAll("", t[e..] + [c]));
      LongerAfter(Settle(b), t[..e] + SettleAll("", t[e..]), t[..e] + SettleAll("", t[e..] + [c]));
    } else {
      DropLeft(t, [c], 1);
      SettleAllRight(b + [t[0]], t[1..], c);
    }
  }

  lemma {:induction false} TrimSpaceRight(s: string, c: char)
    requires IsSpace(c)
    ensures Trim(s + [c]) == Trim(s)
  {
    TrimLeftLonger(s, c);
    var u := TrimLeft(s);
    assert (u + [c])[..|u|] == u;
  }

  lemma {:induction false} TrimLonger(a: string, b: string)
    requires LongerBySpace(a, b)
    ensures Trim(a) == Trim(b)
  {
    if b != a {
      assert b == a + [b[|a|]];
      TrimSpaceRight(a, b[|a|]);
    }
  }

  lemma {:induction false} TrimSpaceLeft(a: string, b: string)
    requires SpaceMore(a, b, true)
    ensures Trim(a) == Trim(b)
  {
    TrimLeftOfSpace(a);
  }

  lemma {:induction false} NormalizeTrimLeft(x: string)
    ensures Normalize(TrimLeft(x)) == Normalize(x)
  {
    if x != "" && IsSpace(x[0]) {
      NormalizeTrimLeft(x[1..]);
      assert "" + [x[0]] == [x[0]] + "";
      SettleAllLeft(x[0], "", x[1..]);
      TrimSpaceLeft(SettleAll("", x[1..]), SettleAll("", x));
    }
  }

  lemma {:induction false} NormalizeTrimRight(x: string)
    ensures Normalize(TrimRight(x)) == Normalize(x)
  {
    if x != "" && IsSpace(x[|x| - 1]) {
      var s, c := x[..|x| - 1], x[|x| - 1];
      assert x == s + [c];
      NormalizeTrimRight(s);
      SettleAllRight("", s, c);
      TrimLonger(SettleAll("", s), SettleAll("", x));
    }
  }

  /** White space around a statement does not matter. */
  lemma {:induction false} NormalizeTrimmed(x: string)
    ensures Normalize(Trim(x)) == Normalize(x)
  {
    NormalizeTrimLeft(x);
    NormalizeTrimRight(TrimLeft(x));
  }

  /** A canonical statement is its own canonical form. */
  lemma {:induction false} NormalizeIdempotent(stmt: string)
    ensures Normalize(Normalize(stmt)) == Normalize(stmt)
  {
    NormalizeTrimmed(SettleAll("", stmt));
    SettleAllIdempotent("", stmt);
  }

  // ---- one trimmed line ---------------------------------------------------

  /** No literal of `t` holds a line break. */
  predicate SingleLine(t: string) {
    t == "" ||
    if t[0] == '"' then OneLine(t[..LiteralEnd(t, 1)]) && SingleLine(t[LiteralEnd(t, 1)..]) else SingleLine(t[1..])
  }

  lemma {:induction false} OneLineAppend(a: string, b: string)
    requires OneLine(a) && OneLine(b)
    ensures OneLine(a + b)
  {
  }

  lemma {:induction false} TightIsOneLine(y: string)
    requires Tight(y)
    ensures OneLine(y)
  {
    if y != "" {
      TightIsOneLine(y[1..]);
      OneLineAppend([y[0]], y[1..]);
      assert y == [y[0]] + y[1..];
    }
  }

  lemma {:induction false} SpreadIsOneLine(y: string)
    requires OneLine(y)
    ensures OneLine(Spread(y))
  {
    if y != "" {
      SpreadIsOneLine(y[1..]);
      assert OneLine(", ") && OneLine(" = ") && OneLine("] ") && OneLine([y[0]]);
    }
  }

  lemma {:induction false} SettleIsOneLine(s: string)
    ensures OneLine(Settle(s))
  {
    SettleIsTwoPasses(s);
    TidyIsTight(s);
    TightIsOneLine(Tidy(s));
    SpreadIsOneLine(Tidy(s));
  }

  lemma {:induction false} SettleAllIsOneLine(b: string, t: string)
    requires SingleLine(t)
    ensures OneLine(SettleAll(b, t))
    decreases |t|
  {
    SettleIsOneLine(b);
    if t != "" && t[0] != '"' {
      SettleAllIsOneLine(b + [t[0]], t[1..]);
    } else if t != "" {
      var e := LiteralEnd(t, 1);
      SettleAllIsOneLine("", t[e..]);
      OneLineAppend(t[..e], SettleAll("", t[e..]));
    }
  }

  lemma {:induction false} TrimLeftIsSuffix(s: string)
    ensures |TrimLeft(s)| <= |s| && TrimLeft(s) == s[|s| - |TrimLeft(s)|..]
  {
    TrimLeftIsDrop(s);
  }

  lemma {:induction false} TrimOfLine(s: string)
    requires OneLine(s)
    ensures OneLine(Trim(s)) && (Trim(s) == "" || IsTrimmed(Trim(s)))
  {
    TrimLeftIsSuffix(s);
    TrimLeftStops(s);
  }

  lemma {:induction false} BlankHasNoSubstance(t: string)
    ensures Substance(t) == "" <==> TrimLeft(t) == ""
  {
    if t != "" && IsSpace(t[0]) {
      BlankHasNoSubstance(t[1..]);
    }
  }

  /** The canonical form of a nonblank statement is one trimmed line. */
  lemma {:induction false} NormalizeIsLine(stmt: string)
    requires Closed(stmt) && SingleLine(stmt) && Trim(stmt) != ""
    ensures IsTrimmed(Normalize(stmt)) && OneLine(Normalize(stmt))
  {
    SettleAllIsOneLine("", stmt);
    TrimOfLine(SettleAll("", stmt));
    NormalizeKeepsSubstance(stmt);
    BlankHasNoSubstance(stmt);
    assert Normalize(stmt) == "" ==> Substance(Normalize(stmt)) == "";
  }
}
