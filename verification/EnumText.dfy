/** Enum bodies as programmers write them: which integer each enumerator of a text gets. */
module EnumText {
  import opened Basics
  import opened SurfaceModel
  import opened Headers
  import opened StatementSplitter
  import opened EnumBody
  import opened Spacing
  import opened Normalizer
  import Text

  // ---- numerals -----------------------------------------------------------

  function HexDigit(d: nat, upper: bool): char
    requires d < 16
  {
    if d < 10 then ('0' as int + d) as char
    else if upper then ('A' as int + (d - 10)) as char
    else ('a' as int + (d - 10)) as char
  }

  /** The numeral of `n` to base 16: what is left after dividing by 16, then the remainder. */
  function Hexadecimal(n: nat, upper: bool): (s: string)
    ensures s != ""
  {
    if n < 16 then [HexDigit(n, upper)] else Hexadecimal(n / 16, upper) + [HexDigit(n % 16, upper)]
  }

  lemma {:induction false} HexadecimalIsHex(n: nat, upper: bool)
    ensures AllHexDigits(Hexadecimal(n, upper))
  {
    if n >= 16 {
      HexadecimalIsHex(n / 16, upper);
    }
  }

  lemma {:induction false} HexStep(s: string, d: nat, upper: bool)
    requires d < 16 && forall i :: 0 <= i < |s| ==> IsHexDigit(s[i])
    ensures forall i :: 0 <= i < |s| + 1 ==> IsHexDigit((s + [HexDigit(d, upper)])[i])
    ensures HexValue(s + [HexDigit(d, upper)]) == 16 * HexValue(s) + d
  {
    assert (s + [HexDigit(d, upper)])[..|s|] == s;
  }

  lemma {:induction false} HexValueOf(n: nat, upper: bool)
    ensures AllHexDigits(Hexadecimal(n, upper)) && HexValue(Hexadecimal(n, upper)) == n
  {
    HexadecimalIsHex(n, upper);
    if n < 16 {
      HexStep("", n, upper);
      assert "" + [HexDigit(n, upper)] == [HexDigit(n, upper)];
    } else {
      HexValueOf(n / 16, upper);
      HexStep(Hexadecimal(n / 16, upper), n % 16, upper);
    }
  }

  /** An integer literal: a sign or none, and a decimal numeral, or `0x` or `0X` and one to base 16. */
  datatype Spelling = Dec(sign: Sign, n: nat) | Hex(sign: Sign, bigX: bool, upper: bool, n: nat)

  datatype Sign = Unsigned | Plus | Minus

  function SignText(s: Sign): string {
    match s
    case Unsigned => ""
    case Plus => "+"
    case Minus => "-"
  }

  function Magnitude(sp: Spelling): string {
    match sp
    case Dec(_, n) => Text.Decimal(n)
    case Hex(_, bigX, upper, n) => (if bigX then "0X" else "0x") + Hexadecimal(n, upper)
  }

  function Spelled(sp: Spelling): string {
    SignText(sp.sign) + Magnitude(sp)
  }

  function Meant(sp: Spelling): int {
    (if sp.sign == Minus then -1 else 1) * sp.n
  }

  lemma {:induction false} ReadMagnitude(sp: Spelling)
    ensures ReadUnsigned(Magnitude(sp)) == Int(sp.n) && Magnitude(sp) != "" && IsDigit(Magnitude(sp)[0])
  {
    match sp
    case Dec(_, n) => ReadDecimal(n);
    case Hex(_, bigX, upper, n) =>
      HexValueOf(n, upper);
      assert Magnitude(sp)[2..] == Hexadecimal(n, upper);
  }

  lemma {:induction false} ReadSigned(m: string, n: nat, s: Sign)
    requires ReadUnsigned(m) == Int(n) && m != "" && IsDigit(m[0])
    ensures ReadInt(SignText(s) + m) == Int((if s == Minus then -1 else 1) * n)
  {
    if s == Unsigned {
      assert SignText(s) + m == m;
    } else {
      assert (SignText(s) + m)[1..] == m;
    }
  }

  /** Every integer literal reads as the integer it stands for. */
  lemma {:induction false} SpelledReads(sp: Spelling)
    ensures ReadInt(Spelled(sp)) == Int(Meant(sp))
  {
    ReadMagnitude(sp);
    ReadSigned(Magnitude(sp), sp.n, sp.sign);
  }

  // ---- one enumerator -----------------------------------------------------

  /** An enumerator without a value, with an integer literal, or with some other expression, and the white
      space around its parts. */
  datatype Written =
    | Bare(pre: string, name: string, post: string)
    | Valued(pre: string, name: string, left: string, right: string, value: Spelling, post: string)
    | Expressed(pre: string, name: string, left: string, right: string, expr: string, post: string)

  predicate Writable(w: Written) {
    && IsIdentifier(w.name) && Blank(w.pre) && Blank(w.post)
    && (!w.Bare? ==> Blank(w.left) && Blank(w.right))
    && (w.Expressed? ==> IsExpression(w.expr))
  }

  /** Text without commas that begins neither with a digit nor with a sign. */
  predicate IsExpression(s: string) {
    IsTrimmed(s) && Without(s, ',') && !IsDigit(s[0]) && s[0] != '+' && s[0] != '-'
  }

  function ValueText(w: Written): string
    requires !w.Bare?
  {
    if w.Valued? then Spelled(w.value) else w.expr
  }

  function Core(w: Written): string {
    if w.Bare? then w.name else w.name + (w.left + ("=" + (w.right + ValueText(w))))
  }

  function WrittenText(w: Written): string {
    w.pre + (Core(w) + w.post)
  }

  function Intended(w: Written): Enumerator {
    match w
    case Bare(_, name, _) => Implicit(name)
    case Valued(_, name, _, _, value, _) => Literal(name, Meant(value))
    case Expressed(_, name, _, _, expr, _) => Symbolic(name, expr)
  }

  /** No white space and no separator. */
  predicate IsPlain(c: char) {
    !IsSpace(c) && c != ',' && c != '='
  }

  predicate AllPlain(s: string) {
    forall i :: 0 <= i < |s| ==> IsPlain(s[i])
  }

  predicate Without(s: string, c: char) {
    forall i :: 0 <= i < |s| ==> s[i] != c
  }

  lemma {:induction false} MagnitudeIsPlain(sp: Spelling)
    ensures AllPlain(Magnitude(sp)) && Magnitude(sp) != ""
  {
    match sp
    case Dec(_, n) => Text.DecimalIsDigits(n);
    case Hex(_, _, upper, n) => HexadecimalIsHex(n, upper);
  }

  lemma {:induction false} SpelledIsPlain(sp: Spelling)
    ensures AllPlain(Spelled(sp)) && IsTrimmed(Spelled(sp))
  {
    MagnitudeIsPlain(sp);
    var s := Spelled(sp);
    forall i | 0 <= i < |s| ensures IsPlain(s[i]) {
      if i >= |SignText(sp.sign)| {
        assert s[i] == Magnitude(sp)[i - |SignText(sp.sign)|];
      }
    }
    assert IsPlain(s[0]) && IsPlain(s[|s| - 1]);
  }

  lemma {:induction false} LengthBeforeOf(u: string, c: char, r: string)
    requires Without(u, c)
    ensures LengthBefore(u + ([c] + r), c) == |u|
  {
    if u == "" {
      assert u + ([c] + r) == [c] + r;
    } else {
      DropLeft(u, [c] + r, 1);
      LengthBeforeOf(u[1..], c, r);
    }
  }

  lemma {:induction false} LengthBeforeNone(u: string, c: char)
    requires Without(u, c)
    ensures LengthBefore(u, c) == |u|
  {
    if u != "" {
      LengthBeforeNone(u[1..], c);
    }
  }

  lemma {:induction false} CutAtSign(u: string, v: string)
    ensures (u + ("=" + v))[..|u|] == u && (u + ("=" + v))[|u| + 1..] == v
  {
  }

  lemma {:induction false} IdentifierIsTrimmed(s: string)
    requires IsIdentifier(s)
    ensures IsTrimmed(s) && AllPlain(s)
  {
    assert IsWord(s[0]) && IsWord(s[|s| - 1]);
  }

  lemma {:induction false} ReadPair(u: string, v: string, name: string, value: string)
    requires Without(u, '=') && Trim(u) == name && Trim(v) == value
    ensures ReadEnumerator(u + ("=" + v)) ==
      match ReadInt(value)
      case Int(n) => Some(Literal(name, n))
      case Symbol => Some(Symbolic(name, value))
      case Malformed => None
  {
    LengthBeforeOf(u, '=', v);
    CutAtSign(u, v);
  }

  lemma {:induction false} PaddedLeft(name: string, left: string)
    requires IsIdentifier(name) && Blank(left)
    ensures Trim(name + left) == name && Without(name + left, '=')
  {
    IdentifierIsTrimmed(name);
    TrimPadded("", name, left);
    assert "" + (name + left) == name + left;
    var u := name + left;
    forall i | 0 <= i < |u| ensures u[i] != '=' {
      assert u[i] == if i < |name| then name[i] else left[i - |name|];
    }
  }

  lemma {:induction false} PaddedRight(right: string, lit: string)
    requires Blank(right) && IsTrimmed(lit)
    ensures Trim(right + lit) == lit
  {
    TrimPadded(right, lit, "");
    assert lit + "" == lit;
  }

  lemma {:induction false} ReadValue(w: Written)
    requires Writable(w) && !w.Bare?
    ensures IsTrimmed(ValueText(w)) && Without(ValueText(w), ',')
    ensures ReadInt(ValueText(w)) == if w.Valued? then Int(Meant(w.value)) else Symbol
  {
    if w.Valued? {
      SpelledIsPlain(w.value);
      SpelledReads(w.value);
    }
  }

  lemma {:induction false} ReadCore(w: Written)
    requires Writable(w)
    ensures ReadEnumerator(Core(w)) == Some(Intended(w))
  {
    IdentifierIsTrimmed(w.name);
    if w.Bare? {
      LengthBeforeNone(w.name, '=');
    } else {
      ReadValue(w);
      PaddedLeft(w.name, w.left);
      PaddedRight(w.right, ValueText(w));
      ReadPair(w.name + w.left, w.right + ValueText(w), w.name, ValueText(w));
      Regroup(w.name, w.left, "=" + (w.right + ValueText(w)));
    }
  }

  lemma {:induction false} EndsAre(a: string, b: string)
    requires a != "" && b != "" && !IsSpace(a[0]) && !IsSpace(b[|b| - 1])
    ensures IsTrimmed(a + b)
  {
  }

  lemma {:induction false} LastOf(a: string, b: string)
    requires b != ""
    ensures a + b != "" && (a + b)[|a + b| - 1] == b[|b| - 1]
  {
  }

  lemma {:induction false} CoreIsTrimmed(w: Written)
    requires Writable(w)
    ensures IsTrimmed(Core(w))
  {
    IdentifierIsTrimmed(w.name);
    if !w.Bare? {
      var lit := ValueText(w);
      ReadValue(w);
      LastOf(w.right, lit);
      LastOf("=", w.right + lit);
      LastOf(w.left, "=" + (w.right + lit));
      EndsAre(w.name, w.left + ("=" + (w.right + lit)));
    }
  }

  /** The text of an enumerator is read as what it says. */
  lemma {:induction false} ReadWritten(w: Written)
    requires Writable(w)
    ensures Trim(WrittenText(w)) != "" && ReadEnumerator(Trim(WrittenText(w))) == Some(Intended(w))
  {
    CoreIsTrimmed(w);
    TrimPadded(w.pre, Core(w), w.post);
    ReadCore(w);
  }

  // ---- the whole body -----------------------------------------------------

  function JoinCommas(texts: seq<string>): string
    requires texts != []
  {
    if |texts| == 1 then texts[0] else texts[0] + ("," + JoinCommas(texts[1..]))
  }

  ghost predicate CommaFree(texts: seq<string>) {
    forall i :: 0 <= i < |texts| ==> Without(texts[i], ',')
  }

  lemma {:induction false} SplitStep(u: string, r: string)
    requires Without(u, ',')
    ensures SplitCommas(u + ("," + r)) == [u] + SplitCommas(r)
  {
    var s := u + ("," + r);
    LengthBeforeOf(u, ',', r);
    assert s[..|u|] == u && s[|u| + 1..] == r;
  }

  lemma {:induction false} SplitUndoesJoin(texts: seq<string>)
    requires texts != [] && CommaFree(texts)
    ensures SplitCommas(JoinCommas(texts)) == texts
  {
    assert Without(texts[0], ',');
    if |texts| == 1 {
      LengthBeforeNone(texts[0], ',');
    } else {
      SplitUndoesJoin(texts[1..]);
      SplitStep(texts[0], JoinCommas(texts[1..]));
      assert texts == [texts[0]] + texts[1..];
    }
  }

  lemma {:induction false} WithoutBoth(a: string, b: string, c: char)
    requires Without(a, c) && Without(b, c)
    ensures Without(a + b, c)
  {
  }

  lemma {:induction false} CoreIsCommaFree(w: Written)
    requires Writable(w)
    ensures Without(Core(w), ',')
  {
    IdentifierIsTrimmed(w.name);
    if !w.Bare? {
      ReadValue(w);
      WithoutBoth(w.right, ValueText(w), ',');
      WithoutBoth("=", w.right + ValueText(w), ',');
      WithoutBoth(w.left, "=" + (w.right + ValueText(w)), ',');
      WithoutBoth(w.name, w.left + ("=" + (w.right + ValueText(w))), ',');
    }
  }

  ghost predicate AllWritable(ws: seq<Written>) {
    forall i :: 0 <= i < |ws| ==> Writable(ws[i])
  }

  /** The texts between the commas; a trailing comma leaves `end`, which is blank, behind it. */
  function Texts(ws: seq<Written>, end: Option<string>): (r: seq<string>)
    ensures |r| == |ws| + if end.Some? then 1 else 0
    ensures forall i :: 0 <= i < |ws| ==> r[i] == WrittenText(ws[i])
    ensures end.Some? ==> r[|ws|] == end.value
  {
    seq(|ws|, i requires 0 <= i < |ws| => WrittenText(ws[i])) + if end.Some? then [end.value] else []
  }

  lemma {:induction false} TextsAreCommaFree(ws: seq<Written>, end: Option<string>)
    requires AllWritable(ws) && (end.Some? ==> Blank(end.value))
    ensures CommaFree(Texts(ws, end))
  {
    forall i | 0 <= i < |ws| ensures Without(WrittenText(ws[i]), ',') {
      CoreIsCommaFree(ws[i]);
      WithoutBoth(Core(ws[i]), ws[i].post, ',');
      WithoutBoth(ws[i].pre, Core(ws[i]) + ws[i].post, ',');
    }
    assert end.Some? ==> Without(end.value, ',');
  }

  function AllIntended(ws: seq<Written>): (r: seq<Enumerator>)
    ensures |r| == |ws| && forall i :: 0 <= i < |ws| ==> r[i] == Intended(ws[i])
  {
    seq(|ws|, i requires 0 <= i < |ws| => Intended(ws[i]))
  }

  lemma {:induction false} ReadStep(t: string, rest: seq<string>, e: Enumerator, es: seq<Enumerator>)
    requires Trim(t) != "" && ReadEnumerator(Trim(t)) == Some(e) && Enumerators(rest) == Some(es)
    ensures Enumerators([t] + rest) == Some([e] + es)
  {
    assert ([t] + rest)[1..] == rest;
  }

  lemma {:induction false} FirstAndOthers(all: seq<string>, x: string, others: seq<string>)
    requires |all| == |others| + 1 && all[0] == x && forall i :: 0 <= i < |others| ==> others[i] == all[i + 1]
    ensures all == [x] + others
  {
  }

  lemma {:induction false} NextTextAt(ws: seq<Written>, end: Option<string>, i: nat)
    requires ws != [] && i < |Texts(ws[1..], end)|
    ensures i + 1 < |Texts(ws, end)| && Texts(ws[1..], end)[i] == Texts(ws, end)[i + 1]
  {
    if i + 1 < |ws| {
      assert ws[1..][i] == ws[i + 1];
    }
  }

  lemma {:induction false} FirstOfTexts(ws: seq<Written>, end: Option<string>)
    requires ws != []
    ensures Texts(ws, end) == [WrittenText(ws[0])] + Texts(ws[1..], end)
  {
    var others := Texts(ws[1..], end);
    forall i | 0 <= i < |others| ensures others[i] == Texts(ws, end)[i + 1] {
      NextTextAt(ws, end, i);
    }
    FirstAndOthers(Texts(ws, end), WrittenText(ws[0]), others);
  }

  lemma {:induction false} FirstIntended(ws: seq<Written>)
    requires ws != []
    ensures AllIntended(ws) == [Intended(ws[0])] + AllIntended(ws[1..])
  {
  }

  lemma {:induction false} ReadNothing(end: Option<string>)
    requires end.Some? ==> Blank(end.value)
    ensures Enumerators(Texts([], end)) == Some([])
  {
    if end.Some? {
      TrimOfBlank(end.value);
      assert Texts([], end)[1..] == [];
    }
  }

  lemma {:induction false} ReadTexts(ws: seq<Written>, end: Option<string>)
    requires AllWritable(ws) && (end.Some? ==> Blank(end.value))
    ensures Enumerators(Texts(ws, end)) == Some(AllIntended(ws))
  {
    if ws == [] {
      ReadNothing(end);
    } else {
      ReadTexts(ws[1..], end);
      ReadWritten(ws[0]);
      FirstOfTexts(ws, end);
      FirstIntended(ws);
      ReadStep(WrittenText(ws[0]), Texts(ws[1..], end), Intended(ws[0]), AllIntended(ws[1..]));
    }
  }

  lemma {:induction false} BodyLines(ws: seq<Written>, end: Option<string>)
    requires AllWritable(ws) && (end.Some? ==> Blank(end.value)) && ws != []
    ensures EnumMembers(JoinCommas(Texts(ws, end))) == Some(Lines(AllIntended(ws), Some(-1)))
  {
    TextsAreCommaFree(ws, end);
    SplitUndoesJoin(Texts(ws, end));
    ReadTexts(ws, end);
  }

  lemma {:induction false} IntendedLine(ws: seq<Written>, es: seq<Enumerator>, i: nat, j: int)
    requires |es| == |ws| && forall k :: 0 <= k < |ws| ==> es[k] == Intended(ws[k])
    requires -1 <= j <= i < |ws| && (j >= 0 ==> ws[j].Valued?) && forall k :: j < k <= i ==> ws[k].Bare?
    ensures Lines(es, Some(-1))[i] == ValueLine(ws[i].name, if j < 0 then i else Meant(ws[j].value) + (i - j))
  {
    assert es[i] == Intended(ws[i]) && (j >= 0 ==> es[j] == Intended(ws[j]));
    DumpedInt(es, i, j);
  }

  /** An enum body written with integer literals and bare names, in any layout: the `i`-th line says
      the nearest literal before it plus the distance, or `i` where there is none. */
  lemma {:induction false} BodyMembers(ws: seq<Written>, end: Option<string>, i: nat, j: int)
    requires AllWritable(ws) && (end.Some? ==> Blank(end.value))
    requires -1 <= j <= i < |ws| && (j >= 0 ==> ws[j].Valued?) && forall k :: j < k <= i ==> ws[k].Bare?
    ensures var r := EnumMembers(JoinCommas(Texts(ws, end)));
      r.Some? && |r.value| == |ws| &&
      r.value[i] == ws[i].name + (" = " + IntText(if j < 0 then i else Meant(ws[j].value) + (i - j)))
  {
    BodyLines(ws, end);
    IntendedLine(ws, AllIntended(ws), i, j);
  }

  lemma {:induction false} UnknownLine(es: seq<Enumerator>, i: nat, j: nat)
    requires j <= i < |es| && es[j].Symbolic? && forall k :: j < k <= i ==> es[k].Implicit?
    ensures Lines(es, Some(-1))[i] == if i == j then es[j].name + (" = " + Normalize(es[j].expr)) else es[i].name
  {
    LineAt(es, Some(-1), i);
    UnknownInt(es, Some(-1), j, i);
  }

  lemma {:induction false} IntendedUnknown(ws: seq<Written>, es: seq<Enumerator>, i: nat, j: nat)
    requires |es| == |ws| && forall k :: 0 <= k < |ws| ==> es[k] == Intended(ws[k])
    requires j <= i < |ws| && ws[j].Expressed? && forall k :: j < k <= i ==> ws[k].Bare?
    ensures Lines(es, Some(-1))[i] == if i == j then ws[j].name + (" = " + Normalize(ws[j].expr)) else ws[i].name
  {
    assert es[i] == Intended(ws[i]) && es[j] == Intended(ws[j]);
    UnknownLine(es, i, j);
  }

  /** After any other expression, which is kept in canonical spacing, lines are bare up to the next literal. */
  lemma {:induction false} BodyUnknown(ws: seq<Written>, end: Option<string>, i: nat, j: nat)
    requires AllWritable(ws) && (end.Some? ==> Blank(end.value))
    requires j <= i < |ws| && ws[j].Expressed? && forall k :: j < k <= i ==> ws[k].Bare?
    ensures var r := EnumMembers(JoinCommas(Texts(ws, end)));
      r.Some? && |r.value| == |ws| &&
      r.value[i] == if i == j then ws[j].name + (" = " + Normalize(ws[j].expr)) else ws[i].name
  {
    BodyLines(ws, end);
    IntendedUnknown(ws, AllIntended(ws), i, j);
  }

  // ---- malformed bodies ---------------------------------------------------

  lemma {:induction false} ZeroInFront(s: string)
    ensures Text.Number("0" + s) == Text.Number(s)
  {
    if s == "" {
      assert "0" + s == "0" && "0"[..0] == "";
    } else {
      var k := |s| - 1;
      assert ("0" + s)[..|s|] == "0" + s[..k];
      ZeroInFront(s[..k]);
    }
  }

  lemma {:induction false} LeadingZeroUnsigned(n: nat)
    requires n > 0
    ensures ReadUnsigned("0" + Text.Decimal(n)) == Malformed
  {
    var u := "0" + Text.Decimal(n);
    Text.DecimalIsDigits(n);
    Text.NumberOfDecimal(n);
    ZeroInFront(Text.Decimal(n));
    assert IsDigit(u[1]);
  }

  /** A decimal numeral with a leading zero is an error, unless it is zero. */
  lemma {:induction false} LeadingZero(s: Sign, n: nat)
    requires n > 0
    ensures ReadInt(SignText(s) + ("0" + Text.Decimal(n))) == Malformed
  {
    var u := "0" + Text.Decimal(n);
    LeadingZeroUnsigned(n);
    if s == Unsigned {
      assert SignText(s) + u == u;
    } else {
      assert (SignText(s) + u)[1..] == u;
    }
  }

  lemma {:induction false} FailStep(t: string, rest: seq<string>)
    requires (Trim(t) != "" && ReadEnumerator(Trim(t)) == None) || Enumerators(rest) == None
    ensures Enumerators([t] + rest) == None
  {
    assert ([t] + rest)[1..] == rest;
  }

  lemma {:induction false} OneFails(texts: seq<string>, i: nat)
    requires i < |texts| && Trim(texts[i]) != "" && ReadEnumerator(Trim(texts[i])) == None
    ensures Enumerators(texts) == None
  {
    var t, rest := texts[0], texts[1..];
    assert texts == [t] + rest;
    if i > 0 {
      OneFails(rest, i - 1);
    }
    FailStep(t, rest);
  }

  /** One such value anywhere, and no enum is read. */
  lemma {:induction false} MalformedBody(texts: seq<string>, i: nat, name: string, s: Sign, n: nat)
    requires CommaFree(texts) && i < |texts| && IsIdentifier(name) && n > 0
    requires Trim(texts[i]) == (name + " ") + ("=" + (" " + (SignText(s) + ("0" + Text.Decimal(n)))))
    ensures EnumMembers(JoinCommas(texts)) == None
  {
    var value := SignText(s) + ("0" + Text.Decimal(n));
    SplitUndoesJoin(texts);
    LeadingZero(s, n);
    ZeroedIsTrimmed(s, n);
    PaddedLeft(name, " ");
    PaddedRight(" ", value);
    ReadPair(name + " ", " " + value, name, value);
    OneFails(texts, i);
  }

  lemma {:induction false} ZeroedIsTrimmed(s: Sign, n: nat)
    ensures IsTrimmed(SignText(s) + ("0" + Text.Decimal(n)))
  {
    Text.DecimalIsDigits(n);
    var d := Text.Decimal(n);
    LastOf("0", d);
    LastOf(SignText(s), "0" + d);
    assert IsDigit(d[|d| - 1]);
  }
}
