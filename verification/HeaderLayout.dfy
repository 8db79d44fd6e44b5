/** Headers as programmers lay them out: any white space between their parts and inside annotations. */
module HeaderLayout {
  import opened Basics
  import opened SurfaceModel
  import opened Headers
  import opened NormalForm
  import opened Spacing
  import opened SourceDump
  import opened DeclarationParser

  // ---- one annotation -----------------------------------------------------

  /** An annotation without or with arguments, and the white space before their parenthesis. */
  datatype Note = Simple(word: string) | Called(word: string, gap: string, args: string)

  predicate IsNote(a: Note) {
    IsIdentifier(a.word) && (a.Called? ==> Blank(a.gap) && NoClose(a.args))
  }

  /** What follows the word. */
  function Arguments(a: Note): string {
    if a.Simple? then "" else a.gap + ("(" + (a.args + ")"))
  }

  function NoteText(a: Note): string {
    "@" + (a.word + Arguments(a))
  }

  /** It is kept without any white space. */
  function NoteMeant(a: Note): string {
    if a.Simple? then "@" + a.word else ("@" + a.word) + ("(" + (Squeeze(a.args) + ")"))
  }

  /** What may come next: white space and then anything but an opening parenthesis. */
  predicate Continues(g: string, s: string) {
    g != "" && Blank(g) && IsTrimmed(s) && s[0] != '('
  }

  lemma {:induction false} WordThenMore(word: string, r: string)
    requires IsIdentifier(word) && (r == "" || !IsWord(r[0]))
    ensures var s := "@" + (word + r); s[1..] == word + r && WordRun(s[1..]) == |word| && s[1 + |word|..] == r
  {
    var s := "@" + (word + r);
    assert s[1..] == word + r;
    WordRunOf(word, r);
    assert s[1 + |word|..] == r;
  }

  lemma {:induction false} SimpleLength(word: string, g: string, s: string)
    requires IsIdentifier(word) && Continues(g, s)
    ensures AnnotationLength("@" + (word + (g + s))) == 1 + |word|
  {
    WordThenMore(word, g + s);
    SpaceRunBlank(g, s);
    var t := "@" + (word + (g + s));
    assert t[1 + |word| + |g|] == s[0];
  }

  lemma {:induction false} CalledLength(word: string, gap: string, args: string, r: string)
    requires IsIdentifier(word) && Blank(gap) && NoClose(args)
    ensures AnnotationLength("@" + (word + (gap + ("(" + (args + (")" + r)))))) == 1 + |word| + |gap| + 2 + |args|
  {
    var more := "(" + (args + (")" + r));
    var t := "@" + (word + (gap + more));
    WordThenMore(word, gap + more);
    SpaceRunBlank(gap, more);
    var k := 1 + |word| + |gap|;
    assert t[k] == '(' && t[k + 1..] == args + (")" + r);
    CloseParenOf(args, r);
  }

  lemma {:induction false} NoteLength(a: Note, g: string, s: string)
    requires IsNote(a) && Continues(g, s)
    ensures AnnotationLength(NoteText(a) + (g + s)) == |NoteText(a)|
  {
    if a.Simple? {
      assert a.word + "" == a.word;
      assert NoteText(a) + (g + s) == "@" + (a.word + (g + s));
      SimpleLength(a.word, g, s);
    } else {
      CalledText(a, g + s);
      CalledLength(a.word, a.gap, a.args, g + s);
    }
  }

  lemma {:induction false} CalledText(a: Note, r: string)
    requires a.Called?
    ensures NoteText(a) + r == "@" + (a.word + (a.gap + ("(" + (a.args + (")" + r)))))
    ensures |NoteText(a)| == 1 + |a.word| + |a.gap| + 2 + |a.args|
  {
    Regroup("@", a.word + Arguments(a), r);
    Regroup(a.word, Arguments(a), r);
    Regroup(a.gap, "(" + (a.args + ")"), r);
    Regroup("(", a.args + ")", r);
    Regroup(a.args, ")", r);
  }

  lemma {:induction false} BlankIsSqueezed(g: string)
    requires Blank(g)
    ensures Squeeze(g) == ""
  {
    if g != "" {
      BlankIsSqueezed(g[1..]);
    }
  }

  lemma {:induction false} NoteSqueezed(a: Note)
    requires IsNote(a)
    ensures Squeeze(NoteText(a)) == NoteMeant(a)
  {
    SimpleAnnotation(a.word);
    if a.Simple? {
      assert a.word + "" == a.word;
    } else {
      BlankIsSqueezed(a.gap);
      Regroup("@", a.word, Arguments(a));
      SqueezeArguments("@" + a.word, a.gap, a.args);
    }
  }

  lemma {:induction false} NoteTaken(a: Note, g: string, s: string)
    requires IsNote(a) && Continues(g, s)
    ensures Take(NoteText(a) + (g + s)) == ([NoteMeant(a)] + Take(s).0, Take(s).1)
  {
    var t, n := NoteText(a) + (g + s), |NoteText(a)|;
    NoteLength(a, g, s);
    assert t[..n] == NoteText(a) && t[n..] == g + s;
    NoteSqueezed(a);
    TrimPadded(g, s, "");
    assert s + "" == s;
    TakeNext(t);
  }

  // ---- all of them --------------------------------------------------------

  /** Annotations, each with the white space after it, and then `core`. */
  function Laid(notes: seq<Note>, gaps: seq<string>, core: string): string
    requires |notes| == |gaps|
  {
    if notes == [] then core else NoteText(notes[0]) + (gaps[0] + Laid(notes[1..], gaps[1..], core))
  }

  function AllMeant(notes: seq<Note>): seq<string> {
    if notes == [] then [] else [NoteMeant(notes[0])] + AllMeant(notes[1..])
  }

  ghost predicate AllNotes(notes: seq<Note>, gaps: seq<string>) {
    |notes| == |gaps| && forall i :: 0 <= i < |notes| ==> IsNote(notes[i]) && gaps[i] != "" && Blank(gaps[i])
  }

  predicate IsCore(core: string) {
    IsTrimmed(core) && core[0] != '@' && core[0] != '('
  }

  lemma {:induction false} LaidIsTrimmed(notes: seq<Note>, gaps: seq<string>, core: string)
    requires AllNotes(notes, gaps) && IsCore(core)
    ensures IsTrimmed(Laid(notes, gaps, core)) && Laid(notes, gaps, core)[0] != '('
  {
    if notes != [] {
      var rest := Laid(notes[1..], gaps[1..], core);
      LaidIsTrimmed(notes[1..], gaps[1..], core);
      var s := NoteText(notes[0]) + (gaps[0] + rest);
      assert s[0] == '@' && s[|s| - 1] == rest[|rest| - 1];
    }
  }

  lemma {:induction false} TakeLaid(notes: seq<Note>, gaps: seq<string>, core: string)
    requires AllNotes(notes, gaps) && IsCore(core)
    ensures Take(Laid(notes, gaps, core)) == (AllMeant(notes), core)
  {
    if notes != [] {
      LaidIsTrimmed(notes[1..], gaps[1..], core);
      TakeLaid(notes[1..], gaps[1..], core);
      NoteTaken(notes[0], gaps[0], Laid(notes[1..], gaps[1..], core));
    }
  }

  // ---- the words after them -----------------------------------------------

  lemma {:induction false} WordsAfterBlank(w: string, g: string, rest: string)
    requires IsAtom(w) && g != "" && Blank(g)
    ensures Words(w + (g + rest)) == [w] + Words(rest)
  {
    WordsStep(w, g + rest);
    TrimLeftBlank(g, rest);
  }

  lemma {:induction false} WordAlone(w: string)
    requires IsAtom(w)
    ensures Words(w) == [w]
  {
    WordsStep(w, "");
    assert w + "" == w && Words("") == [];
  }

  /** `oneway` and the white space after it, if it is there; the kind; white space; the name. */
  function Declaration(oneway: Option<string>, kind: Kind, gap: string, name: string): string {
    (if oneway.Some? then "oneway" + oneway.value else "") + (KindText(kind) + (gap + name))
  }

  predicate IsGap(g: string) {
    g != "" && Blank(g)
  }

  lemma {:induction false} DeclarationWords(oneway: Option<string>, kind: Kind, gap: string, name: string)
    requires IsGap(gap) && IsAtom(name) && (oneway.Some? ==> IsGap(oneway.value))
    ensures Words(Declaration(oneway, kind, gap, name)) == HeaderWords(Header([], oneway.Some?, kind, name))
  {
    var k, tail := KindText(kind), KindText(kind) + (gap + name);
    KindWords(kind);
    WordsAfterBlank(k, gap, name);
    WordAlone(name);
    if oneway.Some? {
      assert IsAtom("oneway");
      Regroup("oneway", oneway.value, tail);
      WordsAfterBlank("oneway", oneway.value, tail);
    } else {
      assert "" + tail == tail;
    }
    assert [k] + [name] == [k, name];
  }

  lemma {:induction false} DeclarationIsCore(oneway: Option<string>, kind: Kind, gap: string, name: string)
    requires IsGap(gap) && IsAtom(name) && (oneway.Some? ==> IsGap(oneway.value))
    ensures IsCore(Declaration(oneway, kind, gap, name))
  {
    var s := Declaration(oneway, kind, gap, name);
    KindWords(kind);
    assert s[|s| - 1] == name[|name| - 1];
    assert s[0] == if oneway.Some? then 'o' else KindText(kind)[0];
  }

  lemma {:induction false} InterpretWords(anns: seq<string>, oneway: bool, kind: Kind, name: string)
    ensures Interpret(anns, HeaderWords(Header([], oneway, kind, name))) == Some(Header(anns, oneway, kind, name))
  {
    InterpretUndoes(Header(anns, oneway, kind, name));
  }

  /** A header in any layout is read as what it says, its annotations without white space. */
  lemma {:induction false} HeaderInAnyLayout(pre: string, notes: seq<Note>, gaps: seq<string>, oneway: Option<string>, kind: Kind, gap: string,
                                             name: string, post: string)
    requires Blank(pre) && Blank(post) && AllNotes(notes, gaps) && IsGap(gap) && IsIdentifier(name) && (oneway.Some? ==> IsGap(oneway.value))
    ensures ReadDeclaration(pre + (Laid(notes, gaps, Declaration(oneway, kind, gap, name)) + post)) ==
            Some(Header(AllMeant(notes), oneway.Some?, kind, name))
  {
    var core := Declaration(oneway, kind, gap, name);
    NameIsAtom(name);
    DeclarationIsCore(oneway, kind, gap, name);
    LaidIsTrimmed(notes, gaps, core);
    TrimPadded(pre, Laid(notes, gaps, core), post);
    TakeLaid(notes, gaps, core);
    DeclarationWords(oneway, kind, gap, name);
    InterpretWords(AllMeant(notes), oneway.Some?, kind, name);
  }

  lemma {:induction false} NameIsAtom(name: string)
    requires IsIdentifier(name)
    ensures IsAtom(name) && AllWord(name)
  {
    forall i | 0 <= i < |name| ensures !IsSpace(name[i]) {
      assert IsWord(name[i]);
    }
  }

  // ---- what is no header --------------------------------------------------

  /** The words that name kinds of types. */
  function KindWord(kind: Kind): string {
    match kind
    case Interface => "interface"
    case Parcelable => "parcelable"
    case Union => "union"
    case Enum => "enum"
  }

  /** A text is read as a header exactly when, after its annotations, it is made of the words of that header and
      no others. */
  lemma {:induction false} HeaderExactly(text: string, h: Header)
    ensures ReadHeader(text) == Some(h) <==>
      && h.annotations == TakeAnnotations(text).0
      && Words(TakeAnnotations(text).1) == (if h.oneway then ["oneway", KindWord(h.kind), h.name] else [KindWord(h.kind), h.name])
  {
    InterpretExactly(TakeAnnotations(text).0, Words(TakeAnnotations(text).1), h);
  }

  lemma {:induction false} InterpretExactly(anns: seq<string>, words: seq<string>, h: Header)
    ensures Interpret(anns, words) == Some(h) <==>
      h.annotations == anns && words == if h.oneway then ["oneway", KindWord(h.kind), h.name] else [KindWord(h.kind), h.name]
  {
    var oneway := words != [] && words[0] == "oneway";
    var ws := if oneway then words[1..] else words;
    KindWordIs(h.kind);
    if |ws| == 2 && KindOf(ws[0]).Some? {
      KindWordIs(KindOf(ws[0]).value);
      assert words == if oneway then ["oneway", ws[0], ws[1]] else [ws[0], ws[1]];
    }
  }

  lemma {:induction false} KindWordIs(kind: Kind)
    ensures KindOf(KindWord(kind)) == Some(kind) && KindWord(kind) != "oneway"
    ensures forall w :: KindOf(w) == Some(kind) ==> w == KindWord(kind)
  {
  }
}
