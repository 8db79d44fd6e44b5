/** What putting a line into a type, or taking one out, means for clients. */
module MemberEdits {
  import opened Basics
  import opened SurfaceModel
  import opened SurfaceDiff
  import opened DiffLaws
  import opened DiffAlgebra

  // ---- editing one type ---------------------------------------------------

  /** The surface in which only the members of `q` differ. */
  function Edited(s: Surface, q: string, members: seq<string>): Surface
    requires q in s
  {
    s[q := s[q].(members := members)]
  }

  /** Such an edit is judged by the members of that type alone. */
  lemma {:induction false} EditIsLocal(id: Naming, s: Surface, q: string, members: seq<string>)
    requires q in s
    ensures Extends(id, s, Edited(s, q, members)) <==> MembersExtend(id, s[q], s[q].(members := members))
    ensures Grows(id, s, Edited(s, q, members)) <==> MembersGrow(id, s[q], s[q].(members := members))
  {
    var t := Edited(s, q, members);
    ExtendsReflexive(id, s);
    forall p | p != q ensures KeptAt(id, p, s, t) && !GrowsAt(id, p, s, t) {
      assert KeptAt(id, p, s, s) && !GrowsAt(id, p, s, s);
    }
    assert AnnotationSet(t[q]) == AnnotationSet(s[q]);
    assert KeptAt(id, q, s, t) <==> TypeExtends(id, s[q], t[q]);
    assert GrowsAt(id, q, s, t) <==> TypeGrows(id, s[q], t[q]);
  }

  lemma {:induction false} EditVerdict(id: Naming, s: Surface, q: string, members: seq<string>)
    requires q in s
    ensures var t := s[q].(members := members);
      Classify(id, s, Edited(s, q, members)) == Verdict(MembersExtend(id, s[q], t), MembersGrow(id, s[q], t))
  {
    Classification(id, s, Edited(s, q, members));
    EditIsLocal(id, s, q, members);
  }

  // ---- one more line ------------------------------------------------------

  function Inserted(members: seq<string>, k: nat, x: string): seq<string>
    requires k <= |members|
  {
    members[..k] + ([x] + members[k..])
  }

  lemma {:induction false} ConstsStep(x: string, rest: seq<string>)
    ensures Consts([x] + rest) == (if IsConst(x) then [x] else []) + Consts(rest)
  {
    assert ([x] + rest)[1..] == rest;
  }

  lemma {:induction false} RestStep(x: string, rest: seq<string>)
    ensures Rest([x] + rest) == (if IsConst(x) then [] else [x]) + Rest(rest)
  {
    assert ([x] + rest)[1..] == rest;
  }

  lemma {:induction false} SplitFirst(a: seq<string>, b: seq<string>)
    requires a != []
    ensures a == [a[0]] + a[1..] && a + b == [a[0]] + (a[1..] + b)
  {
  }

  lemma {:induction false} NothingBefore(b: seq<string>)
    ensures [] + b == b
  {
  }

  lemma {:induction false} ConstsOfBoth(a: seq<string>, b: seq<string>)
    ensures Consts(a + b) == Consts(a) + Consts(b)
  {
    if a == [] {
      NothingBefore(b);
      NothingBefore(Consts(b));
    } else {
      var x, rest := a[0], a[1..];
      SplitFirst(a, b);
      ConstsStep(x, rest);
      ConstsStep(x, rest + b);
      ConstsOfBoth(rest, b);
      Regroup(if IsConst(x) then [x] else [], Consts(rest), Consts(b));
    }
  }

  lemma {:induction false} RestOfBoth(a: seq<string>, b: seq<string>)
    ensures Rest(a + b) == Rest(a) + Rest(b)
  {
    if a == [] {
      NothingBefore(b);
      NothingBefore(Rest(b));
    } else {
      var x, rest := a[0], a[1..];
      SplitFirst(a, b);
      RestStep(x, rest);
      RestStep(x, rest + b);
      RestOfBoth(rest, b);
      Regroup(if IsConst(x) then [] else [x], Rest(rest), Rest(b));
    }
  }

  lemma {:induction false} ConstsOfOne(x: string)
    ensures Consts([x]) == (if IsConst(x) then [x] else []) && Rest([x]) == if IsConst(x) then [] else [x]
  {
    assert [x][1..] == [];
  }

  /** What an inserted line does to the constants and to the other members. */
  lemma {:induction false} ConstsOfInserted(members: seq<string>, k: nat, x: string)
    requires k <= |members|
    ensures var a, b := members[..k], members[k..];
      && Consts(members) == Consts(a) + Consts(b) && Rest(members) == Rest(a) + Rest(b)
      && Consts(Inserted(members, k, x)) == (if IsConst(x) then Consts(a) + ([x] + Consts(b)) else Consts(members))
      && Rest(Inserted(members, k, x)) == (if IsConst(x) then Rest(members) else Rest(a) + ([x] + Rest(b)))
  {
    var a, b := members[..k], members[k..];
    assert members == a + b;
    ConstsOfBoth(a, b);
    ConstsOfBoth(a, [x] + b);
    ConstsStep(x, b);
    RestOfBoth(a, b);
    RestOfBoth(a, [x] + b);
    RestStep(x, b);
    NothingBefore(Consts(b));
    NothingBefore(Rest(b));
  }

  lemma {:induction false} ByNameLast(id: Naming, kind: Kind, a: seq<string>, y: string)
    ensures ByName(id, kind, a + [y]) == ByName(id, kind, a)[id(kind, y) := y]
  {
    assert (a + [y])[..|a|] == a;
  }

  lemma {:induction false} UpdatesCommute(m: map<string, string>, k: string, x: string, l: string, y: string)
    requires k != l
    ensures m[k := x][l := y] == m[l := y][k := x]
  {
  }

  /** A line with a new name adds one entry, wherever it stands. */
  lemma {:induction false} ByNameOfInserted(id: Naming, kind: Kind, a: seq<string>, x: string, b: seq<string>)
    requires id(kind, x) !in ByName(id, kind, a + b)
    ensures ByName(id, kind, a + ([x] + b)) == ByName(id, kind, a + b)[id(kind, x) := x]
    decreases |b|
  {
    if b == [] {
      assert a + ([x] + b) == a + [x] && a + b == a;
      ByNameLast(id, kind, a, x);
    } else {
      var c, y := b[..|b| - 1], b[|b| - 1];
      assert a + ([x] + b) == (a + ([x] + c)) + [y] && a + b == (a + c) + [y];
      ByNameLast(id, kind, a + c, y);
      ByNameOfInserted(id, kind, a, x, c);
      ByNameLast(id, kind, a + ([x] + c), y);
      UpdatesCommute(ByName(id, kind, a + c), id(kind, x), x, id(kind, y), y);
    }
  }

  // ---- constants ----------------------------------------------------------

  /** The line begins with these six characters. */
  predicate BeginsWithConst(line: string) {
    |line| >= 6 && line[0] == 'c' && line[1] == 'o' && line[2] == 'n' && line[3] == 's' && line[4] == 't' && line[5] == ' '
  }

  lemma {:induction false} ConstIsSixCharacters(line: string)
    ensures IsConst(line) <==> BeginsWithConst(line)
  {
    if BeginsWithConst(line) {
      assert line[0..6] == "const ";
    }
    if IsConst(line) {
      assert line[0..6][0] == line[0] && line[0..6][1] == line[1] && line[0..6][2] == line[2];
      assert line[0..6][3] == line[3] && line[0..6][4] == line[4] && line[0..6][5] == line[5];
    }
  }

  lemma {:induction false} OneMoreEntry(m: map<string, string>, k: string, x: string)
    requires k !in m
    ensures MapExtends(m, m[k := x]) && HasNewKey(m, m[k := x])
  {
    assert k in m[k := x];
  }

  lemma {:induction false} SequenceSame(id: Naming, kind: Kind, members: seq<string>)
    ensures SequenceExtends(id, kind, members, members) && !HasNewKey(ByName(id, kind, members), ByName(id, kind, members))
  {
    var names := Names(id, kind, members);
    assert names[..|names|] == names;
  }

  /** A constant with a new name, put anywhere into a type that is no enum, is additive; taking it out breaks. */
  lemma {:induction false} AddedConstant(id: Naming, s: Surface, q: string, k: nat, x: string)
    requires q in s && s[q].kind != Enum && k <= |s[q].members| && BeginsWithConst(x)
    requires id(Enum, x) !in ByName(id, Enum, Consts(s[q].members))
    ensures Classify(id, s, Edited(s, q, Inserted(s[q].members, k, x))) == Major
    ensures Classify(id, Edited(s, q, Inserted(s[q].members, k, x)), s) == Breaking
  {
    var members, more := s[q].members, Inserted(s[q].members, k, x);
    ConstIsSixCharacters(x);
    ConstsOfInserted(members, k, x);
    ByNameOfInserted(id, Enum, Consts(members[..k]), x, Consts(members[k..]));
    OneMoreEntry(ByName(id, Enum, Consts(members)), id(Enum, x), x);
    SequenceSame(id, s[q].kind, Rest(members));
    EditVerdict(id, s, q, more);
    MajorReversedBreaks(id, s, Edited(s, q, more));
  }

  // ---- fields and methods -------------------------------------------------

  lemma {:induction false} NotInFront(id: Naming, kind: Kind, a: seq<string>, x: string, b: seq<string>)
    requires b != [] && id(kind, x) != id(kind, b[0])
    ensures !IsPrefix(Names(id, kind, a + b), Names(id, kind, a + ([x] + b)))
  {
    var on, nn := Names(id, kind, a + b), Names(id, kind, a + ([x] + b));
    assert on[|a|] == id(kind, b[0]) && nn[|a|] == id(kind, x);
    if |on| <= |nn| {
      assert nn[..|on|][|a|] == nn[|a|];
    }
  }

  /** Any other line, put before a field or method that bears another name, breaks. */
  lemma {:induction false} InsertedMember(id: Naming, s: Surface, q: string, k: nat, x: string)
    requires q in s && s[q].kind != Enum && k <= |s[q].members| && !BeginsWithConst(x)
    requires Rest(s[q].members[k..]) != [] && id(s[q].kind, x) != id(s[q].kind, Rest(s[q].members[k..])[0])
    ensures Classify(id, s, Edited(s, q, Inserted(s[q].members, k, x))) == Breaking
  {
    var members, more := s[q].members, Inserted(s[q].members, k, x);
    ConstIsSixCharacters(x);
    ConstsOfInserted(members, k, x);
    NotInFront(id, s[q].kind, Rest(members[..k]), x, Rest(members[k..]));
    EditVerdict(id, s, q, more);
  }

  lemma {:induction false} NamesOfLonger(id: Naming, kind: Kind, a: seq<string>, x: string)
    ensures IsPrefix(Names(id, kind, a), Names(id, kind, a + [x]))
  {
    assert Names(id, kind, a + [x])[..|a|] == Names(id, kind, a);
  }

  /** One with a new name, put after all of them, is additive, except to a union. */
  lemma {:induction false} AppendedMember(id: Naming, s: Surface, q: string, x: string)
    requires q in s && s[q].kind != Enum && !BeginsWithConst(x) && id(s[q].kind, x) !in ByName(id, s[q].kind, Rest(s[q].members))
    ensures Classify(id, s, Edited(s, q, s[q].members + [x])) == if s[q].kind == Union then Breaking else Major
  {
    var members, kind := s[q].members, s[q].kind;
    ConstIsSixCharacters(x);
    ConstsOfBoth(members, [x]);
    RestOfBoth(members, [x]);
    ConstsOfOne(x);
    assert Consts(members) + [] == Consts(members);
    ByNameLast(id, kind, Rest(members), x);
    OneMoreEntry(ByName(id, kind, Rest(members)), id(kind, x), x);
    NamesOfLonger(id, kind, Rest(members), x);
    EditVerdict(id, s, q, members + [x]);
  }

  // ---- annotations --------------------------------------------------------

  function Annotated(s: Surface, q: string, a: string): Surface
    requires q in s
  {
    s[q := s[q].(annotations := s[q].annotations + [a])]
  }

  lemma {:induction false} AnnotatedSet(t: TypeDecl, a: string)
    ensures AnnotationSet(t.(annotations := t.annotations + [a])) == AnnotationSet(t) + {a}
  {
    var n := t.(annotations := t.annotations + [a]);
    forall b ensures b in AnnotationSet(n) <==> b in AnnotationSet(t) + {a} {
    }
  }

  /** The same members under one more annotation. */
  lemma {:induction false} AnnotatedType(id: Naming, t: TypeDecl, a: string)
    requires a !in t.annotations
    ensures var n := t.(annotations := t.annotations + [a]);
      TypeGrows(id, t, n) && !TypeExtends(id, n, t) && (TypeExtends(id, t, n) <==> MembersExtend(id, t, n) && a == "@VintfStability")
  {
    AnnotatedSet(t, a);
  }

  lemma {:induction false} AnnotatedKeeps(id: Naming, s: Surface, q: string, a: string)
    requires q in s && a !in s[q].annotations
    ensures Extends(id, s, Annotated(s, q, a)) <==> a == "@VintfStability"
  {
    var t := Annotated(s, q, a);
    AnnotatedType(id, s[q], a);
    ExtendsReflexive(id, s);
    assert KeptAt(id, q, s, s);
    assert MembersExtend(id, s[q], t[q]);
    forall p | p != q ensures KeptAt(id, p, s, t) {
      assert KeptAt(id, p, s, s);
    }
    assert KeptAt(id, q, s, t) <==> a == "@VintfStability";
  }

  /** A new annotation is additive when it is this one, and breaks when it is any other. */
  lemma {:induction false} AddedAnnotation(id: Naming, s: Surface, q: string, a: string)
    requires q in s && a !in s[q].annotations
    ensures Classify(id, s, Annotated(s, q, a)) == if a == "@VintfStability" then Major else Breaking
  {
    Classification(id, s, Annotated(s, q, a));
    AnnotatedKeeps(id, s, q, a);
    AnnotatedType(id, s[q], a);
    assert GrowsAt(id, q, s, Annotated(s, q, a));
  }

  /** Losing an annotation breaks, whichever it is. */
  lemma {:induction false} RemovedAnnotation(id: Naming, s: Surface, q: string, a: string)
    requires q in s && a !in s[q].annotations
    ensures Classify(id, Annotated(s, q, a), s) == Breaking
  {
    Classification(id, Annotated(s, q, a), s);
    AnnotatedType(id, s[q], a);
    assert !KeptAt(id, q, Annotated(s, q, a), s);
  }
}
