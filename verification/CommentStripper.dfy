/** Removing comments from AIDL text without touching string literals. */
module CommentStripper {
  import opened Basics

  // ---- where a stretch of text ends ---------------------------------------

  /** The end of a string literal whose scan has reached `j`: just past the closing quote, or the end
      of the text.  A backslash skips the next character. */
  function LiteralEnd(s: string, j: nat): (e: nat)
    ensures e <= |s| && (j < |s| ==> j < e)
    decreases |s| - j
  {
    if j >= |s| then |s|
    else if s[j] == '"' then j + 1
    else LiteralEnd(s, if s[j] == '\\' then j + 2 else j + 1)
  }

  /** The first line feed from `j` on, or the end of the text. */
  function LineEnd(s: string, j: nat): (e: nat)
    ensures e <= |s| && (j <= |s| ==> j <= e)
    decreases |s| - j
  {
    if j >= |s| then |s| else if s[j] == '\n' then j else LineEnd(s, j + 1)
  }

  /** Just past the first comment closer from `j` on, or the end of the text. */
  function BlockEnd(s: string, j: nat): (e: nat)
    ensures e <= |s| && (j <= |s| ==> j <= e)
    decreases |s| - j
  {
    if j + 1 >= |s| then |s| else if s[j] == '*' && s[j + 1] == '/' then j + 2 else BlockEnd(s, j + 1)
  }

  method StringEnd(text: string, i: nat) returns (e: nat)
    requires i < |text| && text[i] == '"'
    ensures e == LiteralEnd(text, i + 1) && i < e <= |text|
  {
    var j, n := i + 1, |text|;
    while j < n && text[j] != '"'
      invariant i < j && LiteralEnd(text, i + 1) == LiteralEnd(text, j)
      decreases n - j
    {
      j := j + if text[j] == '\\' then 2 else 1;
    }
    e := if j + 1 < n then j + 1 else n;
  }

  // ---- tokens -------------------------------------------------------------

  datatype Token = Literal | LineComment | BlockComment | Plain

  function Kind(t: string): Token
    requires t != ""
  {
    if t[0] == '"' then Literal
    else if t[0] == '/' && |t| >= 2 && t[1] == '/' then LineComment
    else if t[0] == '/' && |t| >= 2 && t[1] == '*' then BlockComment
    else Plain
  }

  /** How far the scanner moves from the start of `t` at a time. */
  function Length(t: string): (n: nat)
    requires t != ""
    ensures 0 < n <= |t|
  {
    match Kind(t)
    case Literal => LiteralEnd(t, 1)
    case LineComment => LineEnd(t, 2)
    case BlockComment => BlockEnd(t, 2)
    case Plain => 1
  }

  /** What it keeps of that stretch: literals whole, nothing of a line comment, a space for a block. */
  function Kept(t: string): string
    requires t != ""
  {
    match Kind(t)
    case Literal => t[..LiteralEnd(t, 1)]
    case LineComment => ""
    case BlockComment => " "
    case Plain => [t[0]]
  }

  function Strip(t: string): string {
    if t == "" then "" else Kept(t) + Strip(t[Length(t)..])
  }

  method StripComments(text: string) returns (out: string)
    ensures out == Strip(text)
  {
    out := "";
    var i := 0;
    while i < |text|
      invariant i <= |text| && Strip(text) == out + Strip(text[i..])
    {
      var j, kept := NextToken(text, i);
      StripStep(text, i, j);
      Regroup(out, kept, Strip(text[j..]));
      out := out + kept;
      i := j;
    }
    assert text[|text|..] == "";
  }

  method NextToken(text: string, i: nat) returns (j: nat, kept: string)
    requires i < |text|
    ensures i < j <= |text| && j - i == Length(text[i..]) && kept == Kept(text[i..])
  {
    if text[i] == '"' {
      j := StringEnd(text, i);
      LiteralEndShift(text, i, 1);
      kept := text[i..j];
    } else if i + 1 < |text| && text[i] == '/' && text[i + 1] == '/' {
      j := i + LineEnd(text[i..], 2);
      kept := "";
    } else if i + 1 < |text| && text[i] == '/' && text[i + 1] == '*' {
      j := i + BlockEnd(text[i..], 2);
      kept := " ";
    } else {
      j := i + 1;
      kept := [text[i]];
    }
  }

  lemma {:induction false} StripStep(text: string, i: nat, j: nat)
    requires i < j <= |text| && j - i == Length(text[i..])
    ensures Strip(text[i..]) == Kept(text[i..]) + Strip(text[j..])
  {
    var t := text[i..];
    assert Strip(t) == Kept(t) + Strip(t[j - i..]);
    DropDrop(text, i, j);
  }

  lemma {:induction false} DropDrop(t: string, i: nat, j: nat)
    requires i <= j <= |t|
    ensures t[i..][j - i..] == t[j..]
  {
  }

  lemma {:induction false} LiteralEndShift(s: string, k: nat, j: nat)
    requires k <= |s|
    ensures LiteralEnd(s[k..], j) + k == LiteralEnd(s, k + j)
    decreases |s| - j
  {
    if j < |s| - k && s[k + j] != '"' {
      LiteralEndShift(s, k, if s[k + j] == '\\' then j + 2 else j + 1);
    }
  }

  // ---- positions the scanner stops at -------------------------------------

  /** The scanner is at `k` in code, outside comments and literals. */
  predicate CodeAt(t: string, k: nat)
    decreases k
  {
    k == 0 || (t != "" && Length(t) <= k && CodeAt(t[Length(t)..], k - Length(t)))
  }

  /** What is kept of the first `k` characters. */
  function KeptUpTo(t: string, k: nat): string
    requires CodeAt(t, k)
    decreases k
  {
    if k == 0 then "" else Kept(t) + KeptUpTo(t[Length(t)..], k - Length(t))
  }

  lemma {:induction false} StripSplits(t: string, k: nat)
    requires CodeAt(t, k)
    ensures k <= |t| && Strip(t) == KeptUpTo(t, k) + Strip(t[k..])
    decreases k
  {
    if k == 0 {
      assert t[0..] == t;
    } else {
      var n := Length(t);
      StripSplits(t[n..], k - n);
      DropDrop(t, n, k);
      Regroup(Kept(t), KeptUpTo(t[n..], k - n), Strip(t[k..]));
    }
  }

  /** Every string literal is copied verbatim. */
  lemma {:induction false} LiteralsAreVerbatim(t: string, k: nat)
    requires CodeAt(t, k) && k < |t| && t[k] == '"'
    ensures var e := LiteralEnd(t, k + 1);
      Strip(t) == KeptUpTo(t, k) + (t[k..e] + Strip(t[e..]))
  {
    StripSplits(t, k);
    LiteralStep(t, k);
  }

  lemma {:induction false} LiteralStep(t: string, k: nat)
    requires k < |t| && t[k] == '"'
    ensures var e := LiteralEnd(t, k + 1); Strip(t[k..]) == t[k..e] + Strip(t[e..])
  {
    LiteralEndShift(t, k, 1);
    StripStep(t, k, LiteralEnd(t, k + 1));
    TakeOfDrop(t, k, LiteralEnd(t, k + 1));
  }

  lemma {:induction false} TakeOfDrop(t: string, i: nat, j: nat)
    requires i <= j <= |t|
    ensures t[i..][..j - i] == t[i..j]
  {
  }

  // ---- idempotence --------------------------------------------------------

  /** A literal that is closed within `m` characters does not depend on what follows them. */
  lemma {:induction false} LiteralEndLocal(s: string, u: string, j: nat, m: nat)
    requires m <= |s| && m <= |u| && s[..m] == u[..m] && LiteralEnd(s, j) <= m && LiteralEnd(s, j) < |s|
    ensures LiteralEnd(u, j) == LiteralEnd(s, j)
    decreases |s| - j
  {
    assert j < m;
    assert s[j] == s[..m][j] == u[j];
    if s[j] != '"' {
      LiteralEndLocal(s, u, if s[j] == '\\' then j + 2 else j + 1, m);
    }
  }

  /** Whatever does not open a comment appears first in the result. */
  lemma {:induction false} StripFirst(t: string)
    requires t != "" && t[0] != '/'
    ensures Strip(t) != "" && Strip(t)[0] == t[0]
  {
  }

  lemma {:induction false} StripPlain(c: char, r: string)
    requires c != '"' && (c == '/' ==> r == "" || (r[0] != '/' && r[0] != '*'))
    ensures Strip([c] + r) == [c] + Strip(r)
  {
    assert ([c] + r)[1..] == r;
  }

  lemma {:induction false} StripLiteral(t: string, r: string)
    requires t != "" && t[0] == '"' && (Length(t) == |t| ==> r == "")
    ensures Strip(t[..Length(t)] + r) == t[..Length(t)] + Strip(r)
  {
    var n := Length(t);
    var u := t[..n] + r;
    if n < |t| {
      LiteralEndLocal(t, u, 1, n);
    } else {
      assert u == t;
    }
    assert u[..n] == t[..n] && u[n..] == r;
  }

  lemma {:induction false} StripIdempotent(t: string)
    ensures Strip(Strip(t)) == Strip(t)
  {
    if t != "" {
      var rest := t[Length(t)..];
      StripIdempotent(rest);
      match Kind(t)
      case Literal =>
        StripLiteral(t, Strip(rest));
      case LineComment =>
        assert Strip(t) == Strip(rest);
      case BlockComment =>
        StripPlain(' ', Strip(rest));
      case Plain =>
        if rest != "" && rest[0] != '/' {
          StripFirst(rest);
        }
        StripPlain(t[0], Strip(rest));
    }
  }

  predicate IsComment(t: string) {
    t != "" && (Kind(t) == LineComment || Kind(t) == BlockComment)
  }

  lemma {:induction false} StripShrinks(t: string)
    ensures |Strip(t)| <= |t|
  {
    if t != "" {
      StripShrinks(t[Length(t)..]);
    }
  }

  lemma {:induction false} CommentShrinks(t: string, k: nat)
    requires CodeAt(t, k) && k <= |t| && IsComment(t[k..])
    ensures |Strip(t)| < |t|
    decreases k
  {
    if k == 0 {
      assert t[0..] == t;
      StripShrinks(t[Length(t)..]);
    } else {
      var n := Length(t);
      DropDrop(t, n, k);
      CommentShrinks(t[n..], k - n);
    }
  }

  /** No comment opener is left outside string literals. */
  lemma {:induction false} NoCommentIsLeft(t: string, k: nat)
    requires CodeAt(Strip(t), k) && k <= |Strip(t)|
    ensures !IsComment(Strip(t)[k..])
  {
    StripIdempotent(t);
    if IsComment(Strip(t)[k..]) {
      CommentShrinks(Strip(t), k);
    }
  }

  // ---- comments say nothing -----------------------------------------------

  lemma {:induction false} LineEndLocal(s: string, u: string, j: nat, m: nat)
    requires m <= |s| && m <= |u| && s[..m] == u[..m] && LineEnd(s, j) < m
    ensures LineEnd(u, j) == LineEnd(s, j)
    decreases |s| - j
  {
    assert s[j] == s[..m][j] == u[j];
    if s[j] != '\n' {
      LineEndLocal(s, u, j + 1, m);
    }
  }

  lemma {:induction false} BlockEndLocal(s: string, u: string, j: nat, m: nat)
    requires m <= |s| && m <= |u| && s[..m] == u[..m] && BlockEnd(s, j) <= m && BlockEnd(s, j) < |s|
    ensures BlockEnd(u, j) == BlockEnd(s, j)
    decreases |s| - j
  {
    assert j + 1 < m;
    assert s[j] == s[..m][j] == u[j] && s[j + 1] == s[..m][j + 1] == u[j + 1];
    if !(s[j] == '*' && s[j + 1] == '/') {
      BlockEndLocal(s, u, j + 1, m);
    }
  }

  /** A token that ends within `pre` does not depend on what follows, beyond its first character. */
  lemma {:induction false} TokenIsLocal(pre: string, x: string, y: string)
    requires pre != "" && x != "" && y != "" && x[0] == y[0] == '/' && Length(pre + x) <= |pre|
    ensures Length(pre + y) == Length(pre + x) && Kept(pre + y) == Kept(pre + x)
  {
    var s, u, m := pre + x, pre + y, |pre|;
    assert s[..m] == pre == u[..m];
    assert s[0] == u[0] && s[1] == u[1];
    match Kind(s)
    case Literal =>
      LiteralEndLocal(s, u, 1, m);
      assert s[..Length(s)] == s[..m][..Length(s)] == u[..Length(s)];
    case LineComment =>
      LineEndIsFeed(s, 2);
      LineEndLocal(s, u, 2, m);
    case BlockComment =>
      BlockEndLocal(s, u, 2, m);
    case Plain =>
  }

  lemma {:induction false} LineEndIsFeed(s: string, j: nat)
    ensures LineEnd(s, j) < |s| ==> s[LineEnd(s, j)] == '\n'
    decreases |s| - j
  {
    if j < |s| && s[j] != '\n' {
      LineEndIsFeed(s, j + 1);
    }
  }

  /** Two texts that agree up to a comment opener and strip alike from there strip alike. */
  lemma {:induction false} StripFrom(pre: string, x: string, y: string)
    requires x != "" && y != "" && x[0] == y[0] == '/' && Strip(x) == Strip(y) && CodeAt(pre + x, |pre|)
    ensures CodeAt(pre + y, |pre|) && Strip(pre + x) == Strip(pre + y)
  {
    if pre == "" {
      assert pre + x == x && pre + y == y;
    } else {
      TokenIsLocal(pre, x, y);
      var n := Length(pre + x);
      assert (pre + x)[n..] == pre[n..] + x && (pre + y)[n..] == pre[n..] + y;
      StripFrom(pre[n..], x, y);
    }
  }

  predicate Closes(s: string, j: nat) {
    j + 1 < |s| && s[j] == '*' && s[j + 1] == '/'
  }

  /** A block comment, its body not closing early. */
  predicate IsBlock(c: string) {
    |c| >= 4 && c[..2] == "/*" && Closes(c, |c| - 2) && forall j :: 2 <= j < |c| - 2 ==> !Closes(c, j)
  }

  /** A line comment without its line feed. */
  predicate IsLine(c: string) {
    |c| >= 2 && c[..2] == "//" && '\n' !in c
  }

  /** What may follow a line comment: a line feed, or nothing. */
  predicate EndsLine(rest: string) {
    rest == "" || rest[0] == '\n'
  }

  /** A block comment that is never closed; it runs to the end of the text. */
  predicate IsUnclosed(c: string) {
    |c| >= 2 && c[..2] == "/*" && forall j :: 2 <= j < |c| ==> !Closes(c, j)
  }

  predicate IsBlockBefore(c: string, post: string) {
    IsBlock(c) || (IsUnclosed(c) && post == "")
  }

  lemma {:induction false} UnclosedEnd(c: string, j: nat)
    requires IsUnclosed(c) && 2 <= j
    ensures BlockEnd(c, j) == |c|
    decreases |c| - j
  {
    if j + 1 < |c| {
      assert !Closes(c, j);
      UnclosedEnd(c, j + 1);
    }
  }

  lemma {:induction false} BlockEndOf(c: string, post: string, j: nat)
    requires IsBlock(c) && 2 <= j <= |c| - 2
    ensures BlockEnd(c + post, j) == |c|
    decreases |c| - j
  {
    if j < |c| - 2 {
      assert !Closes(c, j);
      BlockEndOf(c, post, j + 1);
    }
  }

  lemma {:induction false} StripBlock(c: string, post: string)
    requires IsBlockBefore(c, post)
    ensures Strip(c + post) == " " + Strip(post) && (c + post)[0] == '/'
  {
    assert c[0] == c[..2][0] && c[1] == c[..2][1];
    if IsBlock(c) {
      BlockEndOf(c, post, 2);
    } else {
      assert c + post == c;
      UnclosedEnd(c, 2);
    }
    assert (c + post)[|c|..] == post;
  }

  lemma {:induction false} LineEndOf(c: string, rest: string, j: nat)
    requires IsLine(c) && EndsLine(rest) && 2 <= j <= |c|
    ensures LineEnd(c + rest, j) == |c|
    decreases |c| - j
  {
    if j < |c| {
      assert c[j] != '\n';
      LineEndOf(c, rest, j + 1);
    }
  }

  lemma {:induction false} StripLine(c: string, rest: string)
    requires IsLine(c) && EndsLine(rest)
    ensures Strip(c + rest) == Strip(rest) && (c + rest)[0] == '/'
  {
    assert c[0] == c[..2][0] && c[1] == c[..2][1];
    LineEndOf(c, rest, 2);
    assert (c + rest)[|c|..] == rest;
    assert "" + Strip(rest) == Strip(rest);
  }

  /** What a block comment says does not matter, closed or running to the end of the text. */
  lemma {:induction false} BlockCommentIsIrrelevant(pre: string, a: string, b: string, post: string)
    requires IsBlockBefore(a, post) && IsBlockBefore(b, post) && CodeAt(pre + (a + post), |pre|)
    ensures CodeAt(pre + (b + post), |pre|) && Strip(pre + (a + post)) == Strip(pre + (b + post))
  {
    StripBlock(a, post);
    StripBlock(b, post);
    StripFrom(pre, a + post, b + post);
  }

  /** Nor does what a line comment says; the line feed after it, if there is one, stays. */
  lemma {:induction false} LineCommentIsIrrelevant(pre: string, a: string, b: string, rest: string)
    requires IsLine(a) && IsLine(b) && EndsLine(rest) && CodeAt(pre + (a + rest), |pre|)
    ensures CodeAt(pre + (b + rest), |pre|) && Strip(pre + (a + rest)) == Strip(pre + (b + rest))
  {
    StripLine(a, rest);
    StripLine(b, rest);
    StripFrom(pre, a + rest, b + rest);
  }

  // ---- what a literal is --------------------------------------------------

  /** What may stand between quotes: any character but a quote, and any character after a backslash. */
  predicate IsLiteralText(x: string) {
    x == "" ||
    if x[0] == '\\' then |x| >= 2 && IsLiteralText(x[2..]) else x[0] != '"' && IsLiteralText(x[1..])
  }

  lemma {:induction false} AfterSome(pre: string, x: string, post: string, k: nat)
    requires k <= |x|
    ensures pre + (x + post) == (pre + x[..k]) + (x[k..] + post)
  {
    assert x == x[..k] + x[k..];
  }

  /** A literal ends right after its closing quote. */
  lemma {:induction false} LiteralCloses(pre: string, x: string, post: string)
    requires IsLiteralText(x)
    ensures LiteralEnd(pre + (x + ("\"" + post)), |pre|) == |pre| + |x| + 1
    decreases |x|
  {
    var s := pre + (x + ("\"" + post));
    if x != "" {
      var k := if x[0] == '\\' then 2 else 1;
      AfterSome(pre, x, "\"" + post, k);
      assert s[|pre|] == x[0];
      LiteralCloses(pre + x[..k], x[k..], post);
    }
  }

  /** Without one, it runs to the end of the text. */
  lemma {:induction false} LiteralRunsOn(pre: string, x: string)
    requires IsLiteralText(x)
    ensures LiteralEnd(pre + x, |pre|) == |pre + x|
    decreases |x|
  {
    var s := pre + x;
    if x != "" {
      var k := if x[0] == '\\' then 2 else 1;
      assert s == (pre + x[..k]) + x[k..] && s[|pre|] == x[0];
      LiteralRunsOn(pre + x[..k], x[k..]);
    }
  }

  /** Whatever stands between quotes, comment openers included, is kept. */
  lemma {:induction false} QuotedIsKept(x: string, post: string)
    requires IsLiteralText(x)
    ensures Strip("\"" + (x + ("\"" + post))) == ("\"" + (x + "\"")) + Strip(post)
  {
    var t := "\"" + (x + ("\"" + post));
    LiteralCloses("\"", x, post);
    assert t[..|x| + 2] == "\"" + (x + "\"") && t[|x| + 2..] == post;
  }
}
