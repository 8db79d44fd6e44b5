/** White space around words and signs: what trimming and the canonical spacing make of it. */
module Spacing {
  import opened Basics
  import opened SurfaceModel
  import opened Headers
  import opened CommentStripper
  import opened StatementSplitter
  import opened Normalizer
  import opened NormalForm

  // ---- outer white space --------------------------------------------------

  predicate Blank(s: string) {
    forall i :: 0 <= i < |s| ==> IsSpace(s[i])
  }

  lemma {:induction false} TrimLeftBlank(a: string, s: string)
    requires Blank(a)
    ensures TrimLeft(a + s) == TrimLeft(s)
  {
    if a == "" {
      assert a + s == s;
    } else {
      DropLeft(a, s, 1);
      TrimLeftBlank(a[1..], s);
    }
  }

  lemma {:induction false} TrimRightBlank(s: string, b: string)
    requires Blank(b)
    ensures TrimRight(s + b) == TrimRight(s)
  {
    if b == "" {
      assert s + b == s;
    } else {
      var k := |b| - 1;
      assert (s + b)[..|s + b| - 1] == s + b[..k];
      TrimRightBlank(s, b[..k]);
    }
  }

  lemma {:induction false} TrimPadded(a: string, s: string, b: string)
    requires Blank(a) && Blank(b) && IsTrimmed(s)
    ensures Trim(a + (s + b)) == s
  {
    TrimLeftBlank(a, s + b);
    TrimRightBlank(s, b);
    assert TrimLeft(s + b) == s + b;
    assert TrimRight(s) == s;
  }

  lemma {:induction false} TrimOfBlank(s: string)
    requires Blank(s)
    ensures Trim(s) == ""
  {
    TrimLeftBlank(s, "");
    assert s + "" == s;
  }

  // ---- one sign between two words -----------------------------------------

  predicate AllWords(s: string) {
    forall i :: 0 <= i < |s| ==> IsWord(s[i])
  }

  lemma {:induction false} TidyWord(a: string, r: string)
    requires AllWords(a)
    ensures Tidy(a + r) == a + Tidy(r)
  {
    if a == "" {
      assert a + r == r;
    } else {
      DropLeft(a, r, 1);
      TidyWord(a[1..], r);
      TidyPlain(a[0], a[1..] + r);
      assert a + r == [a[0]] + (a[1..] + r);
      Regroup([a[0]], a[1..], Tidy(r));
      assert a == [a[0]] + a[1..];
    }
  }

  lemma {:induction false} SpreadWord(a: string, r: string)
    requires AllWords(a)
    ensures Spread(a + r) == a + Spread(r)
  {
    if a == "" {
      assert a + r == r;
    } else {
      DropLeft(a, r, 1);
      SpreadWord(a[1..], r);
      Regroup([a[0]], a[1..], Spread(r));
      assert a == [a[0]] + a[1..];
    }
  }

  lemma {:induction false} SpaceRunBlank(u: string, r: string)
    requires Blank(u) && (r == "" || !IsSpace(r[0]))
    ensures SpaceRun(u + r) == |u|
  {
    if u == "" {
      assert u + r == r;
    } else {
      DropLeft(u, r, 1);
      SpaceRunBlank(u[1..], r);
    }
  }

  /** What is left of white space that is not next to punctuation. */
  function Gap(u: string): string {
    if u == "" then "" else " "
  }

  lemma {:induction false} TidyGap(u: string, r: string)
    requires Blank(u) && r != "" && !IsSpace(r[0]) && !IsPunctuation(r[0])
    ensures Tidy(u + r) == Gap(u) + Tidy(r)
  {
    if u == "" {
      assert u + r == r && "" + Tidy(r) == Tidy(r);
    } else {
      SpaceRunBlank(u, r);
      DropLeft(u, r, 1);
      TrimLeftBlank(u[1..], r);
      assert TrimLeft(r) == r;
      assert (u + r)[|u|] == r[0];
    }
  }

  lemma {:induction false} TidySign(u: string, c: char, v: string, b: string)
    requires Blank(u) && Blank(v) && IsPunctuation(c) && AllWords(b) && b != ""
    ensures Tidy(u + ([c] + (v + b))) == [c] + b
  {
    var r := [c] + (v + b);
    SpaceRunBlank(u, r);
    assert (u + r)[|u|] == c && (u + r)[|u| + 1..] == v + b;
    TrimLeftBlank(v, b);
    assert TrimLeft(b) == b;
    TidyAlone(b);
  }

  lemma {:induction false} TidyAlone(b: string)
    requires AllWords(b)
    ensures Tidy(b) == b && Spread(b) == b
  {
    TidyWord(b, "");
    SpreadWord(b, "");
    assert b + "" == b;
  }

  lemma {:induction false} TidyOther(u: string, c: char, v: string, b: string)
    requires Blank(u) && Blank(v) && !IsPunctuation(c) && !IsSpace(c) && AllWords(b) && b != ""
    ensures Tidy(u + ([c] + (v + b))) == Gap(u) + ([c] + (Gap(v) + b))
  {
    TidyAlone(b);
    TidyGap(v, b);
    TidyPlain(c, v + b);
    TidyGap(u, [c] + (v + b));
  }

  lemma {:induction false} SpreadSign(c: char, b: string)
    requires AllWords(b) && b != ""
    ensures Spread([c] + b) == (if c == ',' then ", " else if c == '=' then " = " else if c == ']' then "] " else [c]) + b
  {
    assert ([c] + b)[1..] == b;
    TidyAlone(b);
  }

  lemma {:induction false} SpreadStep(c: char, r: string)
    requires c != ',' && c != '=' && c != ']'
    ensures Spread([c] + r) == [c] + Spread(r)
  {
    assert ([c] + r)[1..] == r;
  }

  lemma {:induction false} SpreadGap(u: string, r: string)
    ensures Spread(Gap(u) + r) == Gap(u) + Spread(r)
  {
    if u == "" {
      assert "" + r == r && "" + Spread(r) == Spread(r);
    } else {
      SpreadStep(' ', r);
    }
  }

  lemma {:induction false} SpreadOther(u: string, c: char, v: string, b: string)
    requires c != ',' && c != '=' && c != ']' && AllWords(b)
    ensures Spread(Gap(u) + ([c] + (Gap(v) + b))) == Gap(u) + ([c] + (Gap(v) + b))
  {
    TidyAlone(b);
    SpreadGap(v, b);
    SpreadStep(c, Gap(v) + b);
    SpreadGap(u, [c] + (Gap(v) + b));
  }

  /** What stands between two words after normalising. */
  function Between(u: string, c: char, v: string): string {
    match c
    case '(' => "("
    case ')' => ")"
    case '[' => "["
    case ']' => "] "
    case ';' => ";"
    case ',' => ", "
    case '=' => " = "
    case _ => Gap(u) + ([c] + Gap(v))
  }

  lemma {:induction false} SettledBetween(u: string, c: char, v: string, b: string)
    requires Blank(u) && Blank(v) && !IsSpace(c) && AllWords(b) && b != ""
    ensures Spread(Tidy(u + ([c] + (v + b)))) == Between(u, c, v) + b
  {
    if IsPunctuation(c) {
      TidySign(u, c, v, b);
      SpreadSign(c, b);
    } else {
      TidyOther(u, c, v, b);
      SpreadOther(u, c, v, b);
      Regroup(Gap(u), [c] + Gap(v), b);
      Regroup([c], Gap(v), b);
    }
  }

  lemma {:induction false} NoQuoteBetween(a: string, u: string, c: char, v: string, b: string)
    requires AllWords(a) && Blank(u) && c != '"' && Blank(v) && AllWords(b)
    ensures NoQuote(a + (u + ([c] + (v + b))))
  {
    NoQuoteAppend(v, b);
    NoQuoteAppend([c], v + b);
    NoQuoteAppend(u, [c] + (v + b));
    NoQuoteAppend(a, u + ([c] + (v + b)));
  }

  lemma {:induction false} WordsAreTrimmed(a: string, x: string, b: string)
    requires AllWords(a) && AllWords(b) && a != "" && b != ""
    ensures Trim(a + (x + b)) == a + (x + b)
  {
    var s := a + (x + b);
    assert s[0] == a[0] && s[|s| - 1] == b[|b| - 1];
    assert IsWord(a[0]) && IsWord(b[|b| - 1]);
    TrimOfTrimmed(s);
  }

  /** Any character between two words, with any white space around it: these seven are set canonically,
      and any other keeps one space for each run it had. */
  lemma {:induction false} OneSign(a: string, u: string, c: char, v: string, b: string)
    requires IsIdentifier(a) && IsIdentifier(b) && Blank(u) && Blank(v) && !IsSpace(c) && c != '"'
    ensures Normalize(a + (u + ([c] + (v + b)))) == a + (Between(u, c, v) + b)
  {
    var r := u + ([c] + (v + b));
    NoQuoteBetween(a, u, c, v, b);
    SettleAllOfCode(a + r);
    SettleIsTwoPasses(a + r);
    TidyWord(a, r);
    SpreadWord(a, Tidy(r));
    SettledBetween(u, c, v, b);
    WordsAreTrimmed(a, Between(u, c, v), b);
  }
}
