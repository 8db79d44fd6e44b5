/** Enumerators and the integers behind them. */
module EnumBody {
  import opened Basics
  import opened Text
  import opened Headers
  import opened Normalizer

  // ---- integers -----------------------------------------------------------

  /** An integer literal, some other expression, or a literal with a leading zero, which is an error. */
  datatype Number = Int(value: int) | Symbol | Malformed

  predicate IsDigit(c: char) {
    '0' <= c <= '9'
  }

  predicate IsHexDigit(c: char) {
    IsDigit(c) || 'a' <= c <= 'f' || 'A' <= c <= 'F'
  }

  predicate AllDigits(s: string) {
    s != "" && forall i :: 0 <= i < |s| ==> IsDigit(s[i])
  }

  predicate AllHexDigits(s: string) {
    s != "" && forall i :: 0 <= i < |s| ==> IsHexDigit(s[i])
  }

  function HexValue(s: string): int
    requires forall i :: 0 <= i < |s| ==> IsHexDigit(s[i])
  {
    if s == "" then 0
    else
      var c := s[|s| - 1];
      16 * HexValue(s[..|s| - 1]) +
      if IsDigit(c) then c as int - '0' as int else if 'a' <= c then c as int - 'a' as int + 10 else c as int - 'A' as int + 10
  }

  function ReadUnsigned(u: string): Number {
    if |u| > 2 && u[0] == '0' && (u[1] == 'x' || u[1] == 'X') && AllHexDigits(u[2..]) then Int(HexValue(u[2..]))
    else if !AllDigits(u) then Symbol
    else if u[0] == '0' && Text.Number(u) != 0 then Malformed
    else Int(Text.Number(u))
  }

  function ReadInt(expr: string): Number {
    if expr != "" && expr[0] == '-' then
      var r := ReadUnsigned(expr[1..]);
      if r.Int? then Int(-r.value) else r
    else ReadUnsigned(if expr != "" && expr[0] == '+' then expr[1..] else expr)
  }

  function IntText(n: int): string {
    if n < 0 then "-" + Decimal(-n) else Decimal(n)
  }

  lemma {:induction false} NoLeadingZero(n: nat)
    ensures n > 0 ==> Decimal(n)[0] != '0'
  {
    if n >= 10 {
      NoLeadingZero(n / 10);
    }
  }

  lemma {:induction false} ReadDecimal(n: nat)
    ensures ReadUnsigned(Decimal(n)) == Int(n) && IsDigit(Decimal(n)[0])
  {
    DecimalIsDigits(n);
    NumberOfDecimal(n);
    NoLeadingZero(n);
    var s := Decimal(n);
    assert |s| > 1 ==> IsDigit(s[1]);
  }

  /** A printed integer reads as itself. */
  lemma {:induction false} IntRoundTrip(n: int)
    ensures ReadInt(IntText(n)) == Int(n)
  {
    if n < 0 {
      ReadDecimal(-n);
      assert IntText(n)[1..] == Decimal(-n);
    } else {
      ReadDecimal(n);
    }
  }

  // ---- enumerators --------------------------------------------------------

  datatype Enumerator = Implicit(name: string) | Literal(name: string, value: int) | Symbolic(name: string, expr: string)

  /** The number of characters before the first `c`, or all of them. */
  function LengthBefore(s: string, c: char): (n: nat)
    ensures n <= |s|
  {
    if s == "" || s[0] == c then 0 else 1 + LengthBefore(s[1..], c)
  }

  function SplitCommas(s: string): seq<string>
    decreases |s|
  {
    var n := LengthBefore(s, ',');
    if n == |s| then [s] else [s[..n]] + SplitCommas(s[n + 1..])
  }

  /** Reads one enumerator; `None` stands for the error raised at a malformed integer. */
  function ReadEnumerator(v: string): Option<Enumerator> {
    var n := LengthBefore(v, '=');
    if n == |v| then Some(Implicit(v))
    else
      var name, expr := Trim(v[..n]), Trim(v[n + 1..]);
      match ReadInt(expr)
      case Int(i) => Some(Literal(name, i))
      case Symbol => Some(Symbolic(name, expr))
      case Malformed => None
  }

  /** The enumerators among comma-separated texts; blank ones are skipped. */
  function Enumerators(texts: seq<string>): Option<seq<Enumerator>> {
    if texts == [] then Some([])
    else if Trim(texts[0]) == "" then Enumerators(texts[1..])
    else
      match (ReadEnumerator(Trim(texts[0])), Enumerators(texts[1..]))
      case (Some(e), Some(es)) => Some([e] + es)
      case _ => None
  }

  /** The value an enumerator has after one with value `prev`, where it can be derived. */
  function ValueAfter(prev: Option<int>, e: Enumerator): Option<int> {
    match e
    case Literal(_, v) => Some(v)
    case Symbolic(_, _) => None
    case Implicit(_) => if prev.Some? then Some(prev.value + 1) else None
  }

  function ValueLine(name: string, v: int): string {
    name + (" = " + IntText(v))
  }

  function Line(e: Enumerator, v: Option<int>): string {
    if v.Some? then ValueLine(e.name, v.value) else if e.Symbolic? then e.name + (" = " + Normalize(e.expr)) else e.name
  }

  /** What `render` makes of each enumerator and its value. */
  function Rendered<T>(render: (Enumerator, Option<int>) -> T, es: seq<Enumerator>, prev: Option<int>): (r: seq<T>)
    ensures |r| == |es|
  {
    if es == [] then []
    else
      var v := ValueAfter(prev, es[0]);
      [render(es[0], v)] + Rendered(render, es[1..], v)
  }

  function Lines(es: seq<Enumerator>, prev: Option<int>): (r: seq<string>)
    ensures |r| == |es|
  {
    Rendered(Line, es, prev)
  }

  function LinesFrom(texts: seq<string>, prev: Option<int>): Option<seq<string>> {
    match Enumerators(texts)
    case None => None
    case Some(es) => Some(Lines(es, prev))
  }

  /** The member lines of an enum with this body. */
  function EnumMembers(body: string): Option<seq<string>> {
    LinesFrom(SplitCommas(body), Some(-1))
  }

  // ---- the loop -----------------------------------------------------------

  /** `a` in front of a list that may be missing. */
  function Prepend<T>(a: seq<T>, rest: Option<seq<T>>): Option<seq<T>> {
    match rest
    case None => None
    case Some(r) => Some(a + r)
  }

  lemma {:induction false} PrependNothing<T>(rest: Option<seq<T>>)
    ensures Prepend([], rest) == rest
  {
    if rest.Some? {
      assert [] + rest.value == rest.value;
    }
  }

  lemma {:induction false} PrependOn<T>(a: seq<T>, b: seq<T>, rest: Option<seq<T>>)
    ensures Prepend(a, Prepend(b, rest)) == Prepend(a + b, rest)
  {
    if rest.Some? {
      Regroup(a, b, rest.value);
    }
  }

  lemma {:induction false} NextText(texts: seq<string>, prev: Option<int>)
    requires texts != []
    ensures var v := Trim(texts[0]); var rest := texts[1..];
      if v == "" then LinesFrom(texts, prev) == LinesFrom(rest, prev)
      else match ReadEnumerator(v)
        case None => LinesFrom(texts, prev) == None
        case Some(e) => LinesFrom(texts, prev) == Prepend([Line(e, ValueAfter(prev, e))], LinesFrom(rest, ValueAfter(prev, e)))
  {
    var v := Trim(texts[0]);
    if v != "" && ReadEnumerator(v).Some? && Enumerators(texts[1..]).Some? {
      var es := Enumerators(texts[1..]).value;
      assert ([ReadEnumerator(v).value] + es)[1..] == es;
    }
  }

  method ParseEnumBody(body: string) returns (r: Option<seq<string>>)
    ensures r == EnumMembers(body)
  {
    var texts := SplitCommas(body);
    var members: seq<string>, prev: Option<int> := [], Some(-1);
    assert texts[0..] == texts;
    PrependNothing(LinesFrom(texts, prev));
    for i := 0 to |texts|
      invariant EnumMembers(body) == Prepend(members, LinesFrom(texts[i..], prev))
    {
      var value := Trim(texts[i]);
      NextText(texts[i..], prev);
      assert texts[i..][1..] == texts[i + 1..];
      if value == "" {
        continue;
      }
      var e := ReadEnumerator(value);
      if e.None? {
        return None;
      }
      prev := ValueAfter(prev, e.value);
      PrependOn(members, [Line(e.value, prev)], LinesFrom(texts[i + 1..], prev));
      members := members + [Line(e.value, prev)];
    }
    assert texts[|texts|..] == [] && members + [] == members;
    r := Some(members);
  }

  // ---- which integer it is ------------------------------------------------

  /** The integer behind the `i`-th enumerator of an enum whose implicit values continue `prev`. */
  function Backing(es: seq<Enumerator>, prev: Option<int>, i: nat): Option<int>
    requires i < |es|
  {
    ValueAfter(if i == 0 then prev else Backing(es, prev, i - 1), es[i])
  }

  lemma {:induction false} BackingShifts(es: seq<Enumerator>, prev: Option<int>, i: nat)
    requires 0 < i < |es|
    ensures Backing(es, prev, i) == Backing(es[1..], ValueAfter(prev, es[0]), i - 1)
  {
    if i > 1 {
      BackingShifts(es, prev, i - 1);
    }
  }

  lemma {:induction false} RenderedAt<T>(render: (Enumerator, Option<int>) -> T, es: seq<Enumerator>, prev: Option<int>, i: nat)
    requires i < |es|
    ensures Rendered(render, es, prev)[i] == render(es[i], Backing(es, prev, i))
  {
    if i > 0 {
      RenderedAt(render, es[1..], ValueAfter(prev, es[0]), i - 1);
      BackingShifts(es, prev, i);
    }
  }

  lemma {:induction false} LineAt(es: seq<Enumerator>, prev: Option<int>, i: nat)
    requires i < |es|
    ensures Lines(es, prev)[i] == Line(es[i], Backing(es, prev, i))
  {
    RenderedAt(Line, es, prev, i);
  }

  lemma {:induction false} CountsFromLiteral(es: seq<Enumerator>, prev: Option<int>, j: nat, i: nat)
    requires j <= i < |es| && es[j].Literal? && forall k :: j < k <= i ==> es[k].Implicit?
    ensures Backing(es, prev, i) == Some(es[j].value + (i - j))
  {
    if j < i {
      CountsFromLiteral(es, prev, j, i - 1);
    }
  }

  lemma {:induction false} CountsFromStart(es: seq<Enumerator>, i: nat)
    requires i < |es| && forall k :: 0 <= k <= i ==> es[k].Implicit?
    ensures Backing(es, Some(-1), i) == Some(i)
  {
    if i > 0 {
      CountsFromStart(es, i - 1);
    }
  }

  /** Each dumped integer is the nearest preceding literal plus the distance to it, or the index where
      no literal precedes. */
  lemma {:induction false} DumpedInt(es: seq<Enumerator>, i: nat, j: int)
    requires -1 <= j <= i < |es| && (j >= 0 ==> es[j].Literal?) && forall k :: j < k <= i ==> es[k].Implicit?
    ensures Lines(es, Some(-1))[i] == ValueLine(es[i].name, if j < 0 then i else es[j].value + (i - j))
  {
    LineAt(es, Some(-1), i);
    if j < 0 {
      CountsFromStart(es, i);
    } else {
      CountsFromLiteral(es, Some(-1), j, i);
    }
  }

  /** After an expression that is no literal, the integer is unknown until the next literal. */
  lemma {:induction false} UnknownInt(es: seq<Enumerator>, prev: Option<int>, j: nat, i: nat)
    requires j <= i < |es| && es[j].Symbolic? && forall k :: j < k <= i ==> es[k].Implicit?
    ensures Backing(es, prev, i) == None
  {
    if j < i {
      UnknownInt(es, prev, j, i - 1);
    }
  }
}
