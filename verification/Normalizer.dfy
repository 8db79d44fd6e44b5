/** The canonical spacing of a statement: white space outside string literals is settled, and
    literals are left alone. */
module Normalizer {
  import opened Basics
  import opened SurfaceModel
  import opened Headers
  import opened CommentStripper

  // ---- one stretch of code between literals -------------------------------

  predicate IsPunctuation(c: char) {
    c == '(' || c == ')' || c == ',' || c == ';' || c == '=' || c == '[' || c == ']'
  }

  /** Every run of white space becomes one space. */
  function Collapse(s: string): string
    decreases |s|
  {
    if s == "" then ""
    else if IsSpace(s[0]) then TrimLeftShrinks(s[1..]); " " + Collapse(TrimLeft(s[1..]))
    else [s[0]] + Collapse(s[1..])
  }

  /** White space around punctuation goes. */
  function Tighten(s: string): string
    decreases |s|
  {
    if s == "" then ""
    else
      var k := SpaceRun(s);
      if k < |s| && IsPunctuation(s[k]) then TrimLeftShrinks(s[k + 1..]); [s[k]] + Tighten(TrimLeft(s[k + 1..]))
      else [s[0]] + Tighten(s[1..])
  }

  /** A comma is followed by a space, an equals sign stands between two. */
  function Widen(s: string): string {
    if s == "" then ""
    else (if s[0] == ',' then ", " else if s[0] == '=' then " = " else [s[0]]) + Widen(s[1..])
  }

  /** A word right after a bracket is set off. */
  function SetOff(s: string): string {
    if s == "" then ""
    else (if s[0] == ']' && |s| > 1 && IsWord(s[1]) then "] " else [s[0]]) + SetOff(s[1..])
  }

  function Settle(s: string): string {
    SetOff(Widen(Tighten(Collapse(s))))
  }

  // ---- a whole statement --------------------------------------------------

  function SettleAll(buf: string, t: string): string
    decreases |t|
  {
    if t == "" then Settle(buf)
    else if t[0] == '"' then Settle(buf) + (t[..LiteralEnd(t, 1)] + SettleAll("", t[LiteralEnd(t, 1)..]))
    else SettleAll(buf + [t[0]], t[1..])
  }

  function Normalize(stmt: string): string {
    Trim(SettleAll("", stmt))
  }

  method NormalizeStatement(stmt: string) returns (r: string)
    ensures r == Normalize(stmt)
  {
    var out, buf, i := "", "", 0;
    assert stmt[0..] == stmt && "" + SettleAll("", stmt) == SettleAll("", stmt);
    while i < |stmt|
      invariant 0 <= i <= |stmt|
      invariant SettleAll("", stmt) == out + SettleAll(buf, stmt[i..])
      decreases |stmt| - i
    {
      if stmt[i] == '"' {
        var j := StringEnd(stmt, i);
        SettleAtLiteral(stmt, i, buf);
        Regroup(out, Settle(buf) + stmt[i..j], SettleAll("", stmt[j..]));
        out := out + (Settle(buf) + stmt[i..j]);
        buf := "";
        i := j;
      } else {
        DropDrop(stmt, i, i + 1);
        buf := buf + [stmt[i]];
        i := i + 1;
      }
    }
    assert stmt[|stmt|..] == "";
    r := Trim(out + Settle(buf));
  }

  lemma {:induction false} SettleAtLiteral(t: string, i: nat, buf: string)
    requires i < |t| && t[i] == '"'
    ensures var e := LiteralEnd(t, i + 1);
      SettleAll(buf, t[i..]) == (Settle(buf) + t[i..e]) + SettleAll("", t[e..])
  {
    var e := LiteralEnd(t, i + 1);
    LiteralEndShift(t, i, 1);
    DropDrop(t, i, e);
    TakeOfDrop(t, i, e);
    Regroup(Settle(buf), t[i..e], SettleAll("", t[e..]));
  }

  // ---- two passes in one --------------------------------------------------

  /** Collapsing and tightening at once. */
  function Tidy(s: string): string
    decreases |s|
  {
    if s == "" then ""
    else
      TrimLeftShrinks(s[1..]);
      var k := SpaceRun(s);
      if k < |s| && IsPunctuation(s[k]) then TrimLeftShrinks(s[k + 1..]); [s[k]] + Tidy(TrimLeft(s[k + 1..]))
      else if IsSpace(s[0]) then " " + Tidy(TrimLeft(s[1..]))
      else [s[0]] + Tidy(s[1..])
  }

  /** Widening and setting off at once. */
  function Spread(s: string): string {
    if s == "" then "" else Spaced(s[0], s[1..]) + Spread(s[1..])
  }

  /** A character with the spaces it gets before `r`. */
  function Spaced(c: char, r: string): string {
    if c == ',' then ", " else if c == '=' then " = " else if c == ']' && r != "" && IsWord(r[0]) then "] " else [c]
  }

  lemma {:induction false} TrimLeftIsDrop(s: string)
    ensures TrimLeft(s) == s[SpaceRun(s)..]
  {
    if s != "" && IsSpace(s[0]) {
      TrimLeftIsDrop(s[1..]);
      DropDrop(s, 1, 1 + SpaceRun(s[1..]));
    }
  }

  lemma {:induction false} CollapseTrims(s: string)
    ensures TrimLeft(Collapse(s)) == Collapse(TrimLeft(s))
    decreases |s|
  {
    if s != "" && IsSpace(s[0]) {
      var r := TrimLeft(s[1..]);
      TrimLeftShrinks(s[1..]);
      TrimLeftStops(s[1..]);
      assert (" " + Collapse(r))[1..] == Collapse(r);
      CollapseTrims(r);
    }
  }

  lemma {:induction false} TightenSpace(r: string)
    requires r == "" || !(IsSpace(r[0]) || IsPunctuation(r[0]))
    ensures Tighten(" " + r) == " " + Tighten(r)
  {
    assert (" " + r)[1..] == r;
  }

  lemma {:induction false} TightenSpaced(p: char, r: string)
    requires IsPunctuation(p)
    ensures Tighten(" " + ([p] + r)) == [p] + Tighten(TrimLeft(r)) == Tighten([p] + r)
  {
    var s := " " + ([p] + r);
    assert s[1..] == [p] + r && s[2..] == r && ([p] + r)[1..] == r;
    assert SpaceRun([p] + r) == 0;
  }

  lemma {:induction false} TightenPlain(c: char, r: string)
    requires !IsSpace(c) && !IsPunctuation(c)
    ensures Tighten([c] + r) == [c] + Tighten(r)
  {
    assert ([c] + r)[1..] == r;
  }

  lemma {:induction false} TidyIsBoth(s: string)
    ensures Tidy(s) == Tighten(Collapse(s))
    decreases |s|
  {
    if s != "" {
      TrimLeftShrinks(s[1..]);
      if IsSpace(s[0]) {
        TidyIsBothAfterSpace(s);
      } else if IsPunctuation(s[0]) {
        TidyIsBoth(TrimLeft(s[1..]));
        CollapseTrims(s[1..]);
        TightenSpaced(s[0], Collapse(s[1..]));
      } else {
        TidyIsBoth(s[1..]);
        TightenPlain(s[0], Collapse(s[1..]));
      }
    }
  }

  lemma {:induction false} TidyIsBothAfterSpace(s: string)
    requires s != "" && IsSpace(s[0])
    ensures Tidy(s) == Tighten(Collapse(s))
    decreases |s|, 0
  {
    var r := TrimLeft(s[1..]);
    TrimLeftShrinks(s[1..]);
    TrimLeftIsDrop(s[1..]);
    TrimLeftStops(s[1..]);
    var k := SpaceRun(s);
    DropDrop(s, 1, k);
    if r != "" && IsPunctuation(r[0]) {
      DropDrop(s, k, k + 1);
      TrimLeftShrinks(r[1..]);
      TidyIsBoth(TrimLeft(r[1..]));
      CollapseTrims(r[1..]);
      TightenSpaced(r[0], Collapse(r[1..]));
    } else {
      TidyIsBoth(r);
      TightenSpace(Collapse(r));
    }
  }

  lemma {:induction false} SetOffFirst(w: string, r: string)
    requires w == ", " || w == " = "
    ensures SetOff(w + r) == w + SetOff(r)
  {
    if w == ", " {
      assert w + r == "," + (" " + r);
      SetOffPlain(' ', r);
      SetOffPlain(',', " " + r);
    } else {
      assert w + r == " " + ("=" + (" " + r));
      SetOffPlain(' ', r);
      SetOffPlain('=', " " + r);
      SetOffPlain(' ', "=" + (" " + r));
    }
  }

  lemma {:induction false} SetOffPlain(c: char, r: string)
    requires c != ']'
    ensures SetOff([c] + r) == [c] + SetOff(r)
  {
    assert ([c] + r)[1..] == r;
  }

  lemma {:induction false} SpreadIsBoth(s: string)
    ensures Spread(s) == SetOff(Widen(s))
  {
    if s != "" {
      SpreadIsBoth(s[1..]);
      if s[0] == ',' {
        SetOffFirst(", ", Widen(s[1..]));
      } else if s[0] == '=' {
        SetOffFirst(" = ", Widen(s[1..]));
      } else {
        var r := Widen(s[1..]);
        assert ([s[0]] + r)[1..] == r;
        assert s[1..] != "" && IsWord(s[1]) ==> r != "" && r[0] == s[1];
      }
    }
  }

  lemma {:induction false} SettleIsTwoPasses(s: string)
    ensures Settle(s) == Spread(Tidy(s))
  {
    TidyIsBoth(s);
    SpreadIsBoth(Tidy(s));
  }
}
