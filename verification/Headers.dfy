/** Words, annotations and type headers: how they are written on one line and read back. */
module Headers {
  import opened Basics
  import opened SurfaceModel

  // ---- trimming and words -------------------------------------------------

  function TrimLeft(s: string): string {
    if s != "" && IsSpace(s[0]) then TrimLeft(s[1..]) else s
  }

  function Trim(s: string): (r: string)
    ensures |r| <= |s|
  {
    TrimLeftShrinks(s);
    TrimRight(TrimLeft(s))
  }

  lemma {:induction false} TrimLeftShrinks(s: string)
    ensures |TrimLeft(s)| <= |s|
  {
    if s != "" && IsSpace(s[0]) {
      TrimLeftShrinks(s[1..]);
    }
  }

  predicate NoSpaceIn(w: string) {
    forall i :: 0 <= i < |w| ==> !IsSpace(w[i])
  }

  /** A word as `str.split` yields it. */
  predicate IsAtom(w: string) {
    w != "" && NoSpaceIn(w)
  }

  /** Neither end is white space. */
  predicate IsTrimmed(s: string) {
    s != "" && !IsSpace(s[0]) && !IsSpace(s[|s| - 1])
  }

  lemma {:induction false} TrimOfTrimmed(s: string)
    requires IsTrimmed(s)
    ensures Trim(s) == s
  {
  }

  lemma {:induction false} TrimAfterSpace(s: string)
    requires IsTrimmed(s)
    ensures Trim(" " + s) == s
  {
    assert (" " + s)[1..] == s;
    assert TrimLeft(" " + s) == TrimLeft(s) == s;
  }

  /** The length of the leading word. */
  function WordLength(s: string): (n: nat)
    ensures n <= |s| && (s != "" && !IsSpace(s[0]) ==> n > 0)
  {
    if s == "" || IsSpace(s[0]) then 0 else 1 + WordLength(s[1..])
  }

  function Words(s: string): seq<string>
    decreases |s|
  {
    TrimLeftShrinks(s);
    var t := TrimLeft(s);
    if t == "" then [] else [t[..WordLength(t)]] + (TrimLeftStops(s); Words(t[WordLength(t)..]))
  }

  lemma {:induction false} TrimLeftStops(s: string)
    ensures TrimLeft(s) == "" || !IsSpace(TrimLeft(s)[0])
  {
    if s != "" && IsSpace(s[0]) {
      TrimLeftStops(s[1..]);
    }
  }

  function JoinSpaces(ws: seq<string>): string {
    if ws == [] then "" else if |ws| == 1 then ws[0] else ws[0] + (" " + JoinSpaces(ws[1..]))
  }

  lemma {:induction false} WordLengthOf(w: string, rest: string)
    requires NoSpaceIn(w) && (rest == "" || IsSpace(rest[0]))
    ensures WordLength(w + rest) == |w|
  {
    if w != "" {
      assert (w + rest)[1..] == w[1..] + rest;
      WordLengthOf(w[1..], rest);
    } else {
      assert w + rest == rest;
    }
  }

  lemma {:induction false} WordsStep(w: string, rest: string)
    requires IsAtom(w) && (rest == "" || IsSpace(rest[0]))
    ensures Words(w + rest) == [w] + Words(rest)
  {
    WordLengthOf(w, rest);
    assert (w + rest)[..|w|] == w && (w + rest)[|w|..] == rest;
  }

  lemma {:induction false} WordsAfterSpace(s: string)
    ensures Words(" " + s) == Words(s)
  {
    assert (" " + s)[1..] == s;
  }

  predicate AllAtoms(ws: seq<string>) {
    forall i :: 0 <= i < |ws| ==> IsAtom(ws[i])
  }

  /** Splitting undoes joining. */
  lemma {:induction false} WordsOfJoin(ws: seq<string>)
    requires AllAtoms(ws)
    ensures Words(JoinSpaces(ws)) == ws
  {
    if |ws| == 1 {
      WordsStep(ws[0], "");
      assert ws[0] + "" == ws[0] && Words("") == [];
    } else if |ws| > 1 {
      var rest := JoinSpaces(ws[1..]);
      WordsOfJoin(ws[1..]);
      WordsStep(ws[0], " " + rest);
      WordsAfterSpace(rest);
      assert ws == [ws[0]] + ws[1..];
    }
  }

  lemma {:induction false} JoinIsTrimmed(ws: seq<string>)
    requires ws != [] && AllAtoms(ws)
    ensures IsTrimmed(JoinSpaces(ws)) && IsAtom(ws[0]) && JoinSpaces(ws)[0] == ws[0][0]
  {
    if |ws| > 1 {
      JoinIsTrimmed(ws[1..]);
    }
  }

  lemma {:induction false} JoinAppends(a: string, as_: seq<string>, ws: seq<string>)
    requires ws != []
    ensures JoinSpaces([a] + as_ + ws) == a + (" " + JoinSpaces(as_ + ws))
  {
    assert ([a] + as_ + ws)[1..] == as_ + ws;
  }

  // ---- annotations --------------------------------------------------------

  function WordRun(s: string): (n: nat)
    ensures n <= |s|
  {
    if s == "" || !IsWord(s[0]) then 0 else 1 + WordRun(s[1..])
  }

  function SpaceRun(s: string): (n: nat)
    ensures n <= |s|
  {
    if s == "" || !IsSpace(s[0]) then 0 else 1 + SpaceRun(s[1..])
  }

  /** The first closing parenthesis from the start of `s`, or its length. */
  function CloseParen(s: string): (n: nat)
    ensures n <= |s|
  {
    if s == "" || s[0] == ')' then 0 else 1 + CloseParen(s[1..])
  }

  /** How much of `s` is a leading annotation: `@`, a word, and an argument list if one follows. */
  function AnnotationLength(s: string): (n: nat)
    ensures n <= |s|
  {
    if s == "" || s[0] != '@' || WordRun(s[1..]) == 0 then 0
    else
      var w := 1 + WordRun(s[1..]);
      var k := w + SpaceRun(s[w..]);
      if k < |s| && s[k] == '(' && k + 1 + CloseParen(s[k + 1..]) < |s| then k + 2 + CloseParen(s[k + 1..]) else w
  }

  function Squeeze(s: string): string {
    if s == "" then "" else (if IsSpace(s[0]) then [] else [s[0]]) + Squeeze(s[1..])
  }

  /** Splits leading annotations off, from text that is already trimmed. */
  function Take(rest: string): (seq<string>, string)
    decreases |rest|
  {
    var n := AnnotationLength(rest);
    if n == 0 then ([], rest)
    else
      var more := Take(Trim(rest[n..]));
      ([Squeeze(rest[..n])] + more.0, more.1)
  }

  function TakeAnnotations(text: string): (seq<string>, string) {
    Take(Trim(text))
  }

  lemma {:induction false} TakeNext(rest: string)
    requires AnnotationLength(rest) != 0
    ensures var n := AnnotationLength(rest); var more := Take(Trim(rest[n..]));
      Take(rest).0 == [Squeeze(rest[..n])] + more.0 && Take(rest).1 == more.1
  {
  }

  method SplitAnnotations(text: string) returns (anns: seq<string>, rest: string)
    ensures (anns, rest) == TakeAnnotations(text)
  {
    anns, rest := [], Trim(text);
    assert [] + Take(rest).0 == Take(rest).0;
    while AnnotationLength(rest) != 0
      invariant TakeAnnotations(text).0 == anns + Take(rest).0 && TakeAnnotations(text).1 == Take(rest).1
      decreases |rest|
    {
      var n := AnnotationLength(rest);
      var next := Trim(rest[n..]);
      TakeNext(rest);
      Regroup(anns, [Squeeze(rest[..n])], Take(next).0);
      anns := anns + [Squeeze(rest[..n])];
      rest := next;
    }
    assert anns + [] == anns;
  }

  /** One whole annotation, written without white space. */
  predicate IsAnnotation(a: string) {
    NoSpaceIn(a) && a != "" && AnnotationLength(a) == |a|
  }

  lemma {:induction false} WordRunLocal(s: string, r: string)
    requires WordRun(s) < |s| || r == "" || !IsWord(r[0])
    ensures WordRun(s + r) == WordRun(s)
  {
    if s == "" {
      assert s + r == r;
    } else if IsWord(s[0]) {
      assert (s + r)[1..] == s[1..] + r;
      WordRunLocal(s[1..], r);
    }
  }

  lemma {:induction false} CloseParenLocal(s: string, r: string)
    requires CloseParen(s) < |s|
    ensures CloseParen(s + r) == CloseParen(s)
  {
    if s[0] != ')' {
      assert (s + r)[1..] == s[1..] + r;
      CloseParenLocal(s[1..], r);
    }
  }

  lemma {:induction false} SqueezeNothing(s: string)
    requires NoSpaceIn(s)
    ensures Squeeze(s) == s
  {
    if s != "" {
      SqueezeNothing(s[1..]);
      assert s == [s[0]] + s[1..];
    }
  }

  /** What may follow an annotation on a header line: a space and something that is no argument list. */
  predicate Separated(r: string) {
    |r| >= 2 && r[0] == ' ' && !IsSpace(r[1]) && r[1] != '('
  }

  lemma {:induction false} AnnotationIsLocal(a: string, r: string)
    requires IsAnnotation(a) && Separated(r)
    ensures AnnotationLength(a + r) == |a|
  {
    var s := a + r;
    assert s[1..] == a[1..] + r;
    WordRunLocal(a[1..], r);
    var w := 1 + WordRun(a[1..]);
    if w == |a| {
      assert s[w..] == r && r[1..][0] == r[1];
      assert SpaceRun(r) == 1 + SpaceRun(r[1..]) && SpaceRun(r[1..]) == 0;
    } else {
      assert !IsSpace(a[w]) && SpaceRun(a[w..]) == 0 && SpaceRun(s[w..]) == 0;
      assert s[w + 1..] == a[w + 1..] + r;
      CloseParenLocal(a[w + 1..], r);
    }
  }

  lemma {:induction false} TakeStep(a: string, rest: string)
    requires IsAnnotation(a) && IsTrimmed(rest) && rest[0] != '('
    ensures Take(a + (" " + rest)) == ([a] + Take(rest).0, Take(rest).1)
  {
    var s := a + (" " + rest);
    AnnotationIsLocal(a, " " + rest);
    assert s[..|a|] == a && s[|a|..] == " " + rest;
    SqueezeNothing(a);
    TrimAfterSpace(rest);
  }

  /** The annotations of a header line are read back, and the rest is what follows them. */
  lemma {:induction false} TakeUndoesJoin(anns: seq<string>, ws: seq<string>)
    requires forall i :: 0 <= i < |anns| ==> IsAnnotation(anns[i])
    requires ws != [] && AllAtoms(ws) && IsAtom(ws[0]) && ws[0][0] != '@' && ws[0][0] != '('
    ensures Take(JoinSpaces(anns + ws)) == (anns, JoinSpaces(ws))
  {
    if anns == [] {
      assert anns + ws == ws;
      JoinIsTrimmed(ws);
    } else {
      var more := anns[1..];
      assert anns == [anns[0]] + more;
      TakeUndoesJoin(more, ws);
      JoinAppends(anns[0], more, ws);
      JoinIsTrimmed(more + ws);
      assert more != [] ==> more[0][0] == '@';
      TakeStep(anns[0], JoinSpaces(more + ws));
    }
  }

  // ---- headers ------------------------------------------------------------

  function KindOf(w: string): Option<Kind> {
    if w == "interface" then Some(Interface)
    else if w == "parcelable" then Some(Parcelable)
    else if w == "union" then Some(Union)
    else if w == "enum" then Some(Enum)
    else None
  }

  datatype Header = Header(annotations: seq<string>, oneway: bool, kind: Kind, name: string)

  function HeaderWords(h: Header): seq<string> {
    (if h.oneway then ["oneway"] else []) + [KindText(h.kind), h.name]
  }

  function HeaderText(h: Header): string {
    JoinSpaces(h.annotations + HeaderWords(h))
  }

  /** The header these words make after annotations; `None` when they make none. */
  function Interpret(anns: seq<string>, words: seq<string>): Option<Header> {
    var oneway := words != [] && words[0] == "oneway";
    var ws := if oneway then words[1..] else words;
    if |ws| != 2 || KindOf(ws[0]).None? then None else Some(Header(anns, oneway, KindOf(ws[0]).value, ws[1]))
  }

  /** Reads a header line; `None` when it is not one. */
  function ReadHeader(text: string): Option<Header> {
    var taken := TakeAnnotations(text);
    Interpret(taken.0, Words(taken.1))
  }

  predicate ValidHeader(h: Header) {
    IsAtom(h.name) && forall i :: 0 <= i < |h.annotations| ==> IsAnnotation(h.annotations[i])
  }

  lemma {:induction false} KindWords(k: Kind)
    ensures IsAtom(KindText(k)) && KindOf(KindText(k)) == Some(k)
    ensures KindText(k) != "oneway" && KindText(k)[0] != '@' && KindText(k)[0] != '('
  {
  }

  lemma {:induction false} HeaderWordsAreAtoms(h: Header)
    requires IsAtom(h.name)
    ensures AllAtoms(HeaderWords(h)) && HeaderWords(h) != [] && IsAtom(HeaderWords(h)[0])
    ensures HeaderWords(h)[0][0] != '@' && HeaderWords(h)[0][0] != '('
  {
    KindWords(h.kind);
    assert IsAtom("oneway");
  }

  lemma {:induction false} InterpretUndoes(h: Header)
    ensures Interpret(h.annotations, HeaderWords(h)) == Some(h)
  {
    KindWords(h.kind);
    assert HeaderWords(h)[if h.oneway then 1 else 0..] == [KindText(h.kind), h.name];
  }

  /** Reading undoes writing, for every header. */
  lemma {:induction false} HeaderRoundTrip(h: Header)
    requires ValidHeader(h)
    ensures ReadHeader(HeaderText(h)) == Some(h)
    ensures IsTrimmed(HeaderText(h))
  {
    var ws := HeaderWords(h);
    HeaderWordsAreAtoms(h);
    TakeUndoesJoin(h.annotations, ws);
    JoinIsTrimmed(h.annotations + ws);
    TrimOfTrimmed(HeaderText(h));
    WordsOfJoin(ws);
    InterpretUndoes(h);
  }
}
