/** The algebra of verdicts: what chains of diffs add up to. */
module DiffAlgebra {
  import opened Digraph
  import opened SurfaceModel
  import MemberNames
  import opened SurfaceDiff
  import opened DiffLaws

  // ---- extension is a preorder --------------------------------------------

  lemma {:induction false} SequenceExtendsTransitive(id: Naming, kind: Kind, a: seq<string>, b: seq<string>, c: seq<string>)
    requires SequenceExtends(id, kind, a, b) && SequenceExtends(id, kind, b, c)
    ensures SequenceExtends(id, kind, a, c)
  {
    var an, bn, cn := Names(id, kind, a), Names(id, kind, b), Names(id, kind, c);
    assert cn[..|an|] == cn[..|bn|][..|an|];
  }

  lemma {:induction false} MembersExtendTransitive(id: Naming, a: TypeDecl, b: TypeDecl, c: TypeDecl)
    requires a.kind == b.kind && MembersExtend(id, a, b) && MembersExtend(id, b, c)
    ensures MembersExtend(id, a, c)
  {
    if a.kind != Enum {
      SequenceExtendsTransitive(id, a.kind, Rest(a.members), Rest(b.members), Rest(c.members));
    }
  }

  lemma {:induction false} ExtendsTransitive(id: Naming, a: Surface, b: Surface, c: Surface)
    requires Extends(id, a, b) && Extends(id, b, c)
    ensures Extends(id, a, c)
  {
    forall q ensures KeptAt(id, q, a, c) {
      assert KeptAt(id, q, a, b) && KeptAt(id, q, b, c);
      if q in a {
        MembersExtendTransitive(id, a[q], b[q], c[q]);
      }
    }
  }

  lemma {:induction false} ExtendsReflexive(id: Naming, s: Surface)
    ensures Extends(id, s, s) && !Grows(id, s, s)
  {
    forall q | q in s ensures TypeExtends(id, s[q], s[q]) && !TypeGrows(id, s[q], s[q]) {
      var rest := Rest(s[q].members);
      var names := Names(id, s[q].kind, rest);
      assert names[..|names|] == names;
    }
  }

  // ---- empty reports ------------------------------------------------------

  /** Every reported change is at least additive. */
  ghost predicate Severe(changes: seq<Change>) {
    forall i :: 0 <= i < |changes| ==> changes[i].severity != NoChange
  }

  lemma {:induction false} MembersAreSevere(kind: Kind, sort: Sort, where: string, names: seq<string>, om: map<string, string>, nm: map<string, string>)
    ensures (forall n :: n in names ==> n in om) ==> Severe(Losses(sort, where, names, om, nm))
    ensures (forall n :: n in names ==> n in nm) ==> Severe(Gains(kind, sort, where, names, om, nm))
  {
    if names != [] {
      assert names == names[..|names| - 1] + [names[|names| - 1]];
      MembersAreSevere(kind, sort, where, names[..|names| - 1], om, nm);
    }
  }

  lemma {:induction false} AnnotationsAreSevere(where: string, annotations: seq<string>)
    ensures Severe(Dropped(where, annotations)) && Severe(Gained(where, annotations))
  {
    if annotations != [] {
      AnnotationsAreSevere(where, annotations[..|annotations| - 1]);
    }
  }

  lemma {:induction false} NamedAreSevere(id: Naming, sort: Sort, where: string, before: seq<string>, after: seq<string>)
    ensures Severe(NamedChanges(id, sort, where, before, after))
  {
    var om, nm := ByName(id, Enum, before), ByName(id, Enum, after);
    MembersAreSevere(Enum, sort, where, SortedNames.Listing(om.Keys), om, nm);
    MembersAreSevere(Enum, sort, where, SortedNames.Listing(nm.Keys), om, nm);
  }

  lemma {:induction false} SequenceIsSevere(id: Naming, kind: Kind, sort: Sort, where: string, before: seq<string>, after: seq<string>)
    ensures Severe(SequenceChanges(id, kind, sort, where, before, after))
  {
    var on, nn := Names(id, kind, before), Names(id, kind, after);
    var om, nm := ByName(id, kind, before), ByName(id, kind, after);
    var kept := Survivors(on, nm.Keys);
    ByNameKeys(id, kind, before);
    ByNameKeys(id, kind, after);
    MembersAreSevere(kind, sort, where, Firsts(on), om, nm);
    if IsPrefix(kept, nn) {
      MembersAreSevere(kind, sort, where, nn[|kept|..], om, nm);
    }
  }

  lemma {:induction false} SevereJoin(a: seq<Change>, b: seq<Change>)
    requires Severe(a) && Severe(b)
    ensures Severe(a + b)
  {
  }

  lemma {:induction false} AnnotationChangesAreSevere(where: string, o: TypeDecl, n: TypeDecl)
    ensures Severe(AnnotationChanges(where, o, n))
  {
    var lost := SortedNames.Listing(AnnotationSet(o) - AnnotationSet(n));
    var won := SortedNames.Listing(AnnotationSet(n) - AnnotationSet(o));
    AnnotationsAreSevere(where, lost);
    AnnotationsAreSevere(where, won);
    SevereJoin(Dropped(where, lost), Gained(where, won));
  }

  lemma {:induction false} MemberChangesAreSevere(id: Naming, where: string, o: TypeDecl, n: TypeDecl)
    ensures Severe(MemberChanges(id, where, o, n))
  {
    if o.kind == Enum {
      NamedAreSevere(id, EnumValue, where, o.members, n.members);
    } else {
      NamedAreSevere(id, Const, where, Consts(o.members), Consts(n.members));
      SequenceIsSevere(id, o.kind, SortOf(o.kind), where, Rest(o.members), Rest(n.members));
      SevereJoin(NamedChanges(id, Const, where, Consts(o.members), Consts(n.members)),
                 SequenceChanges(id, o.kind, SortOf(o.kind), where, Rest(o.members), Rest(n.members)));
    }
  }

  lemma {:induction false} TypeIsSevere(id: Naming, q: string, o: TypeDecl, n: TypeDecl)
    ensures Severe(TypeChanges(id, q, o, n))
  {
    var where := Where(q, n);
    AnnotationChangesAreSevere(where, o, n);
    MemberChangesAreSevere(id, where, o, n);
    SevereJoin(AnnotationChanges(where, o, n), MemberChanges(id, where, o, n));
    SevereJoin(HeadChanges(q, o, n), AnnotationChanges(where, o, n) + MemberChanges(id, where, o, n));
  }

  lemma {:induction false} AmongIsSevere(id: Naming, qs: seq<string>, o: Surface, n: Surface)
    ensures Severe(ChangesAmong(id, qs, o, n))
  {
    if qs != [] {
      var q := qs[|qs| - 1];
      AmongIsSevere(id, qs[..|qs| - 1], o, n);
      if q in o && q in n {
        TypeIsSevere(id, q, o[q], n[q]);
      }
      assert Severe(ChangesAt(id, q, o, n));
    }
  }

  /** A report says `none` exactly when it lists nothing. */
  lemma {:induction false} NoChangeIsEmpty(id: Naming, o: Surface, n: Surface)
    ensures Classify(id, o, n) == NoChange <==> Changes(id, o, n) == []
  {
    AmongIsSevere(id, SortedNames.Listing(o.Keys + n.Keys), o, n);
  }

  /** Any surface against itself: no verdict and an empty report. */
  lemma {:induction false} SelfDiffIsEmpty(id: Naming, s: Surface)
    ensures Classify(id, s, s) == NoChange && Changes(id, s, s) == []
  {
    ExtendsReflexive(id, s);
    Classification(id, s, s);
    NoChangeIsEmpty(id, s, s);
  }

  // ---- surfaces without homonyms ------------------------------------------

  /** Within a type, no two ordered members share a name. */
  ghost predicate NoHomonyms(id: Naming, t: TypeDecl) {
    t.kind != Enum ==> Distinct(Names(id, t.kind, Rest(t.members)))
  }

  ghost predicate WellNamed(id: Naming, s: Surface) {
    forall q :: q in s ==> NoHomonyms(id, s[q])
  }

  lemma {:induction false} ByNameFinds(id: Naming, kind: Kind, members: seq<string>, i: nat)
    requires Distinct(Names(id, kind, members)) && i < |members|
    ensures var n := id(kind, members[i]); n in ByName(id, kind, members) && ByName(id, kind, members)[n] == members[i]
  {
    var k := |members| - 1;
    assert Names(id, kind, members)[i] == id(kind, members[i]);
    if i < k {
      var init := members[..k];
      assert forall j :: 0 <= j < k ==> Names(id, kind, init)[j] == Names(id, kind, members)[j];
      ByNameFinds(id, kind, init, i);
      assert Names(id, kind, members)[i] != Names(id, kind, members)[k];
    }
  }

  /** `names` and `m` are the names and the dictionary of `members`, and no name is used twice. */
  ghost predicate Indexed(f: string -> string, members: seq<string>, names: seq<string>, m: map<string, string>) {
    && |names| == |members| && Distinct(names)
    && (forall i :: 0 <= i < |names| ==> names[i] == f(members[i]) && names[i] in m && m[names[i]] == members[i])
    && (forall n :: n in m ==> n in names)
  }

  lemma {:induction false} MembersAreIndexed(id: Naming, kind: Kind, members: seq<string>, f: string -> string)
    requires Distinct(Names(id, kind, members)) && forall m :: f(m) == id(kind, m)
    ensures Indexed(f, members, Names(id, kind, members), ByName(id, kind, members))
  {
    ByNameKeys(id, kind, members);
    forall i | 0 <= i < |members| ensures var n := id(kind, members[i]);
      n in ByName(id, kind, members) && ByName(id, kind, members)[n] == members[i]
    {
      ByNameFinds(id, kind, members, i);
    }
  }

  lemma {:induction false} PrefixByNames(f: string -> string, before: seq<string>, on: seq<string>, om: map<string, string>,
                                         after: seq<string>, nn: seq<string>, nm: map<string, string>)
    requires Indexed(f, before, on, om) && Indexed(f, after, nn, nm)
    ensures IsPrefix(on, nn) && MapExtends(om, nm) <==> IsPrefix(before, after)
  {
    if IsPrefix(on, nn) && MapExtends(om, nm) {
      forall i | 0 <= i < |before| ensures before[i] == after[i] {
        assert on[i] == nn[..|on|][i] == nn[i];
      }
      assert after[..|before|] == before;
    }
    if IsPrefix(before, after) {
      forall i | 0 <= i < |on| ensures on[i] == nn[i] {
        assert before[i] == after[..|before|][i] == after[i];
      }
      assert nn[..|on|] == on;
      forall k | k in om ensures k in nm && nm[k] == om[k] {
        var i :| 0 <= i < |on| && on[i] == k;
        assert before[i] == after[..|before|][i] == after[i];
      }
    }
  }

  /** An appended line brings a new name. */
  lemma {:induction false} NewKeyAppears(f: string -> string, before: seq<string>, on: seq<string>, om: map<string, string>,
                                         after: seq<string>, nn: seq<string>, nm: map<string, string>)
    requires Indexed(f, before, on, om) && Indexed(f, after, nn, nm) && IsPrefix(on, nn)
    ensures HasNewKey(om, nm) <==> |before| < |after|
  {
    if |before| < |after| {
      var n := nn[|on|];
      forall i | 0 <= i < |on| ensures on[i] != n {
        assert on[i] == nn[..|on|][i] == nn[i];
      }
      assert n in nm && n !in om;
    } else {
      assert on == nn;
      forall k | k in nm ensures k in om {
        var i :| 0 <= i < |nn| && nn[i] == k;
        assert on[i] == k;
      }
    }
  }

  /** Without homonyms, extending means that the old lines are a prefix of the new ones, and for a
      union that they are all of them; and nothing is new exactly when there are no more lines. */
  lemma {:induction false} ExtendsIsPrefix(id: Naming, kind: Kind, before: seq<string>, after: seq<string>)
    requires Distinct(Names(id, kind, before)) && Distinct(Names(id, kind, after))
    ensures SequenceExtends(id, kind, before, after) <==> IsPrefix(before, after) && (kind == Union ==> before == after)
    ensures SequenceExtends(id, kind, before, after) ==>
      (HasNewKey(ByName(id, kind, before), ByName(id, kind, after)) <==> |before| < |after|)
  {
    var f := (m: string) => id(kind, m);
    var on, om := Names(id, kind, before), ByName(id, kind, before);
    var nn, nm := Names(id, kind, after), ByName(id, kind, after);
    MembersAreIndexed(id, kind, before, f);
    MembersAreIndexed(id, kind, after, f);
    PrefixByNames(f, before, on, om, after, nn, nm);
    if IsPrefix(on, nn) {
      NewKeyAppears(f, before, on, om, after, nn, nm);
    }
    if IsPrefix(before, after) && |before| == |after| {
      assert before == after;
    }
  }

  lemma {:induction false} UpdateBoth(a: map<string, string>, b: map<string, string>, n: string, y: string, m: string, v: string)
    requires a[n := y] == b[n := y]
    ensures a[m := v][n := y] == b[m := v][n := y]
  {
    assert a[m := v][n := y] == if m == n then a[n := y] else a[n := y][m := v];
    assert b[m := v][n := y] == if m == n then b[n := y] else b[n := y][m := v];
  }

  lemma {:induction false} UpdateTwice(a: map<string, string>, n: string, u: string, v: string, y: string)
    ensures a[n := u][n := y] == a[n := v][n := y]
  {
  }

  /** Putting another line under a name that a later line bears changes no dictionary entry but that
      name's. */
  lemma {:induction false} ByNameElsewhere(id: Naming, kind: Kind, members: seq<string>, i: nat, x: string, y: string)
    requires i < |members| && id(kind, x) == id(kind, members[i])
    ensures ByName(id, kind, members[i := x])[id(kind, x) := y] == ByName(id, kind, members)[id(kind, x) := y]
  {
    var k := |members| - 1;
    assert members[i := x][..k] == if i < k then members[..k][i := x] else members[..k];
    if i < k {
      ByNameElsewhere(id, kind, members[..k], i, x, y);
      UpdateBoth(ByName(id, kind, members[..k][i := x]), ByName(id, kind, members[..k]), id(kind, x), y,
                 id(kind, members[k]), members[k]);
    } else {
      UpdateTwice(ByName(id, kind, members[..k]), id(kind, x), x, members[k], y);
    }
  }

  lemma {:induction false} ByNameShadowed(id: Naming, kind: Kind, members: seq<string>, i: nat, j: nat, x: string)
    requires i < j < |members| && id(kind, x) == id(kind, members[i]) == id(kind, members[j])
    ensures ByName(id, kind, members[i := x]) == ByName(id, kind, members)
  {
    var k := |members| - 1;
    assert members[i := x][..k] == members[..k][i := x];
    if j < k {
      ByNameShadowed(id, kind, members[..k], i, j, x);
    } else {
      ByNameElsewhere(id, kind, members[..k], i, x, members[k]);
    }
  }

  /** Of two lines with one name, only the last is looked at: the first may turn into any other line
      of that name, and the diff sees an extension that adds nothing. */
  lemma {:induction false} HomonymsHideChanges(id: Naming, kind: Kind, before: seq<string>, i: nat, j: nat, x: string)
    requires i < j < |before| && id(kind, x) == id(kind, before[i]) == id(kind, before[j]) && x != before[i]
    ensures var after := before[i := x];
      SequenceExtends(id, kind, before, after) && !HasNewKey(ByName(id, kind, before), ByName(id, kind, after)) && !IsPrefix(before, after)
  {
    var after := before[i := x];
    ByNameShadowed(id, kind, before, i, j, x);
    var names := Names(id, kind, before);
    assert Names(id, kind, after) == names && names[..|names|] == names;
    assert after[..|before|][i] == x;
  }

  /** A method line with these parameters. */
  function Overload(name: string, parameters: string): string {
    "void " + name + ("(" + parameters)
  }

  lemma {:induction false} OverloadIsNamed(name: string, parameters: string)
    requires IsIdentifier(name)
    ensures MemberName(Interface, Overload(name, parameters)) == name
  {
    var line := Overload(name, parameters);
    assert line[0..6][0] == 'v' && "const "[0] == 'c';
    assert !IsConst(line);
    MemberNames.MethodLine(Interface, "void ", name, parameters);
  }

  /** For instance, of two overloads of a method the first may change its parameters unnoticed. */
  lemma {:induction false} OverloadsHideChanges(name: string, a: string, b: string, c: string)
    requires IsIdentifier(name) && a != c
    ensures var before, after := [Overload(name, a), Overload(name, b)], [Overload(name, c), Overload(name, b)];
      && SequenceExtends(MemberName, Interface, before, after) && !IsPrefix(before, after)
      && !HasNewKey(ByName(MemberName, Interface, before), ByName(MemberName, Interface, after))
  {
    var before := [Overload(name, a), Overload(name, b)];
    OverloadIsNamed(name, a);
    OverloadIsNamed(name, b);
    OverloadIsNamed(name, c);
    var n := 5 + |name| + 1;
    assert Overload(name, a)[n..] == a && Overload(name, c)[n..] == c;
    HomonymsHideChanges(MemberName, Interface, before, 0, 1, Overload(name, c));
    assert before[0 := Overload(name, c)] == [Overload(name, c), Overload(name, b)];
  }

  // ---- no change is mutual extension --------------------------------------

  lemma {:induction false} SequenceMutual(id: Naming, kind: Kind, before: seq<string>, after: seq<string>)
    requires Distinct(Names(id, kind, before)) && Distinct(Names(id, kind, after))
    requires SequenceExtends(id, kind, before, after)
    ensures !HasNewKey(ByName(id, kind, before), ByName(id, kind, after)) <==> SequenceExtends(id, kind, after, before)
  {
    ExtendsIsPrefix(id, kind, before, after);
    ExtendsIsPrefix(id, kind, after, before);
    if |before| == |after| {
      assert after == before;
    }
  }

  lemma {:induction false} TypeMutual(id: Naming, o: TypeDecl, n: TypeDecl)
    requires NoHomonyms(id, o) && NoHomonyms(id, n) && TypeExtends(id, o, n)
    ensures !TypeGrows(id, o, n) <==> TypeExtends(id, n, o)
  {
    if o.kind != Enum {
      SequenceMutual(id, o.kind, Rest(o.members), Rest(n.members));
    }
  }

  lemma {:induction false} Mutual(id: Naming, o: Surface, n: Surface)
    requires WellNamed(id, o) && WellNamed(id, n) && Extends(id, o, n)
    ensures !Grows(id, o, n) <==> Extends(id, n, o)
  {
    forall q ensures !GrowsAt(id, q, o, n) <==> KeptAt(id, q, n, o) {
      assert KeptAt(id, q, o, n);
      if q in o {
        TypeMutual(id, o[q], n[q]);
      }
    }
  }

  /** The verdict in terms of extension alone. */
  lemma {:induction false} VerdictByExtension(id: Naming, o: Surface, n: Surface)
    requires WellNamed(id, o) && WellNamed(id, n)
    ensures Classify(id, o, n) == Verdict(Extends(id, o, n), !Extends(id, n, o))
  {
    Classification(id, o, n);
    if Extends(id, o, n) {
      Mutual(id, o, n);
    }
  }

  // ---- in terms of lines --------------------------------------------------

  /** Constants and enumerators keep their lines; the other lines are a prefix of the new ones, and for a
      union all of them. */
  ghost predicate MembersKept(id: Naming, o: TypeDecl, n: TypeDecl) {
    if o.kind == Enum then MapExtends(ByName(id, Enum, o.members), ByName(id, Enum, n.members))
    else
      && MapExtends(ByName(id, Enum, Consts(o.members)), ByName(id, Enum, Consts(n.members)))
      && Rest(o.members) <= Rest(n.members) && (o.kind == Union ==> Rest(o.members) == Rest(n.members))
  }

  ghost predicate TypeKept(id: Naming, o: TypeDecl, n: TypeDecl) {
    && o.kind == n.kind && o.oneway == n.oneway
    && AnnotationSet(o) <= AnnotationSet(n) <= AnnotationSet(o) + {STABILITY}
    && MembersKept(id, o, n)
  }

  ghost predicate TypeSame(id: Naming, o: TypeDecl, n: TypeDecl) {
    && o.kind == n.kind && o.oneway == n.oneway && AnnotationSet(o) == AnnotationSet(n)
    && if o.kind == Enum then ByName(id, Enum, o.members) == ByName(id, Enum, n.members)
       else ByName(id, Enum, Consts(o.members)) == ByName(id, Enum, Consts(n.members)) && Rest(o.members) == Rest(n.members)
  }

  ghost predicate TypeKeptAt(id: Naming, q: string, o: Surface, n: Surface) {
    q in o ==> q in n && TypeKept(id, o[q], n[q])
  }

  ghost predicate TypeSameAt(id: Naming, q: string, o: Surface, n: Surface) {
    if q in o then q in n && TypeSame(id, o[q], n[q]) else q !in n
  }

  lemma {:induction false} MapsMutual(om: map<string, string>, nm: map<string, string>)
    ensures MapExtends(om, nm) && !HasNewKey(om, nm) <==> om == nm
  {
    if MapExtends(om, nm) && !HasNewKey(om, nm) {
      assert forall k :: k in nm ==> k in om;
    }
  }

  lemma {:induction false} TypeInLines(id: Naming, o: TypeDecl, n: TypeDecl)
    requires NoHomonyms(id, o) && NoHomonyms(id, n)
    ensures TypeExtends(id, o, n) <==> TypeKept(id, o, n)
    ensures TypeExtends(id, o, n) && !TypeGrows(id, o, n) <==> TypeSame(id, o, n)
  {
    if o.kind == n.kind {
      if o.kind == Enum {
        MapsMutual(ByName(id, Enum, o.members), ByName(id, Enum, n.members));
      } else {
        MapsMutual(ByName(id, Enum, Consts(o.members)), ByName(id, Enum, Consts(n.members)));
        SequenceInLines(id, o.kind, Rest(o.members), Rest(n.members));
      }
    }
  }

  lemma {:induction false} SequenceInLines(id: Naming, kind: Kind, before: seq<string>, after: seq<string>)
    requires Distinct(Names(id, kind, before)) && Distinct(Names(id, kind, after))
    ensures SequenceExtends(id, kind, before, after) <==> before <= after && (kind == Union ==> before == after)
    ensures SequenceExtends(id, kind, before, after) && !HasNewKey(ByName(id, kind, before), ByName(id, kind, after)) <==> before == after
  {
    ExtendsIsPrefix(id, kind, before, after);
    assert IsPrefix(before, after) <==> before <= after;
  }

  /** Without homonyms, a change is not breaking exactly when every old type survives with the same kind
      and direction, annotations grown by the stability promise at most, enumerators and constants kept,
      and its other lines a prefix of the new ones, all of them for a union; and there is no change
      exactly when nothing was added either. */
  lemma {:induction false} ClassificationInLines(id: Naming, o: Surface, n: Surface)
    requires WellNamed(id, o) && WellNamed(id, n)
    ensures Classify(id, o, n) != Breaking <==> forall q :: TypeKeptAt(id, q, o, n)
    ensures Classify(id, o, n) == NoChange <==> forall q :: TypeSameAt(id, q, o, n)
  {
    Classification(id, o, n);
    ExtensionInLines(id, o, n);
  }

  lemma {:induction false} ExtensionInLines(id: Naming, o: Surface, n: Surface)
    requires WellNamed(id, o) && WellNamed(id, n)
    ensures Extends(id, o, n) <==> forall q :: TypeKeptAt(id, q, o, n)
    ensures Extends(id, o, n) && !Grows(id, o, n) <==> forall q :: TypeSameAt(id, q, o, n)
  {
    forall q
      ensures KeptAt(id, q, o, n) <==> TypeKeptAt(id, q, o, n)
      ensures KeptAt(id, q, o, n) && !GrowsAt(id, q, o, n) <==> TypeSameAt(id, q, o, n)
    {
      if q in o && q in n {
        TypeInLines(id, o[q], n[q]);
      }
    }
  }

  // ---- how verdicts add up ------------------------------------------------

  lemma {:induction false} TypeGrowthAddsUp(id: Naming, a: TypeDecl, b: TypeDecl, c: TypeDecl)
    requires TypeExtends(id, a, b) && TypeExtends(id, b, c)
    ensures TypeGrows(id, a, c) <==> TypeGrows(id, a, b) || TypeGrows(id, b, c)
  {
    MembersGrowthAddsUp(id, a, b, c);
  }

  lemma {:induction false} MembersGrowthAddsUp(id: Naming, a: TypeDecl, b: TypeDecl, c: TypeDecl)
    requires a.kind == b.kind == c.kind && MembersExtend(id, a, b) && MembersExtend(id, b, c)
    ensures MembersGrow(id, a, c) <==> MembersGrow(id, a, b) || MembersGrow(id, b, c)
  {
    if a.kind == Enum {
      NewKeysAddUp(ByName(id, Enum, a.members), ByName(id, Enum, b.members), ByName(id, Enum, c.members));
    } else {
      NewKeysAddUp(ByName(id, Enum, Consts(a.members)), ByName(id, Enum, Consts(b.members)), ByName(id, Enum, Consts(c.members)));
      NewKeysAddUp(ByName(id, a.kind, Rest(a.members)), ByName(id, a.kind, Rest(b.members)), ByName(id, a.kind, Rest(c.members)));
    }
  }

  lemma {:induction false} NewKeysAddUp(a: map<string, string>, b: map<string, string>, c: map<string, string>)
    requires MapExtends(a, b) && MapExtends(b, c)
    ensures HasNewKey(a, c) <==> HasNewKey(a, b) || HasNewKey(b, c)
  {
    if k :| k in b && k !in a {
      assert k in c;
    }
    if k :| k in c && k !in b {
      assert k !in a;
    }
  }

  /** Along two extensions something is added exactly when one of them adds something. */
  lemma {:induction false} GrowthAddsUp(id: Naming, a: Surface, b: Surface, c: Surface)
    requires Extends(id, a, b) && Extends(id, b, c)
    ensures Grows(id, a, c) <==> Grows(id, a, b) || Grows(id, b, c)
  {
    forall q ensures GrowsAt(id, q, a, c) <==> GrowsAt(id, q, a, b) || GrowsAt(id, q, b, c) {
      assert KeptAt(id, q, a, b) && KeptAt(id, q, b, c);
      if q in a {
        TypeGrowthAddsUp(id, a[q], b[q], c[q]);
      }
    }
  }

  lemma {:induction false} GrowthIsNoExtension(id: Naming, o: Surface, n: Surface)
    requires Grows(id, o, n)
    ensures !Extends(id, n, o)
  {
    var q :| GrowsAt(id, q, o, n);
    assert !KeptAt(id, q, n, o) by {
      if q in o && TypeExtends(id, n[q], o[q]) {
        GrownTypeIsNew(id, o[q], n[q]);
      }
    }
  }

  lemma {:induction false} GrownTypeIsNew(id: Naming, o: TypeDecl, n: TypeDecl)
    requires TypeExtends(id, n, o)
    ensures !TypeGrows(id, o, n)
  {
  }

  /** What is purely additive one way breaks the other way. */
  lemma {:induction false} MajorReversedBreaks(id: Naming, o: Surface, n: Surface)
    requires Classify(id, o, n) == Major
    ensures Classify(id, n, o) == Breaking
  {
    Classification(id, o, n);
    Classification(id, n, o);
    GrowthIsNoExtension(id, o, n);
  }

  /** Two steps that do not break add up. */
  lemma {:induction false} Compose(id: Naming, a: Surface, b: Surface, c: Surface)
    ensures var step := Worse(Classify(id, a, b), Classify(id, b, c));
            step != Breaking ==> Classify(id, a, c) == step
  {
    Classification(id, a, b);
    Classification(id, b, c);
    Classification(id, a, c);
    if Extends(id, a, b) && Extends(id, b, c) {
      ExtendsTransitive(id, a, b, c);
      GrowthAddsUp(id, a, b, c);
    }
  }

  lemma {:induction false} SelfVerdict(id: Naming, s: Surface)
    ensures Classify(id, s, s) == NoChange
  {
    SelfDiffIsEmpty(id, s);
  }

  /** The verdict of the step to the `k`-th release of a chain. */
  ghost function Step(id: Naming, chain: seq<Surface>, k: nat): Class
    requires 0 < k < |chain|
  {
    Classify(id, chain[k - 1], chain[k])
  }

  ghost function Steps(id: Naming, chain: seq<Surface>): (r: seq<Class>)
    requires chain != []
    ensures |r| == |chain| - 1 && forall i :: 0 <= i < |r| ==> r[i] == Step(id, chain, i + 1)
  {
    seq(|chain| - 1, i requires 0 <= i < |chain| - 1 => Step(id, chain, i + 1))
  }

  function WorstOf(verdicts: seq<Class>): Class {
    if verdicts == [] then NoChange else Worse(WorstOf(verdicts[..|verdicts| - 1]), verdicts[|verdicts| - 1])
  }

  /** `so_far[j]` is the verdict from the first release to the `j`-th. */
  ghost predicate Accumulates(so_far: seq<Class>, steps: seq<Class>) {
    && |so_far| == |steps| + 1 && so_far[0] == NoChange
    && forall j :: 0 <= j < |steps| && Worse(so_far[j], steps[j]) != Breaking ==> so_far[j + 1] == Worse(so_far[j], steps[j])
  }

  lemma {:induction false} StepsAddUp(so_far: seq<Class>, steps: seq<Class>, k: nat)
    requires Accumulates(so_far, steps) && k <= |steps| && WorstOf(steps[..k]) != Breaking
    ensures so_far[k] == WorstOf(steps[..k])
  {
    if k > 0 {
      assert steps[..k][..k - 1] == steps[..k - 1];
      StepsAddUp(so_far, steps, k - 1);
    }
  }

  ghost function VerdictsFromFirst(id: Naming, chain: seq<Surface>): (r: seq<Class>)
    requires chain != []
    ensures |r| == |chain| && forall j :: 0 <= j < |r| ==> r[j] == Classify(id, chain[0], chain[j])
  {
    seq(|chain|, j requires 0 <= j < |chain| => Classify(id, chain[0], chain[j]))
  }

  lemma {:induction false} NextVerdict(id: Naming, chain: seq<Surface>, j: nat)
    requires j + 1 < |chain|
    ensures var so_far, step := VerdictsFromFirst(id, chain), Steps(id, chain)[j];
      Worse(so_far[j], step) != Breaking ==> so_far[j + 1] == Worse(so_far[j], step)
  {
    Compose(id, chain[0], chain[j], chain[j + 1]);
  }

  lemma {:induction false} VerdictsAccumulate(id: Naming, chain: seq<Surface>)
    requires chain != []
    ensures Accumulates(VerdictsFromFirst(id, chain), Steps(id, chain))
  {
    SelfVerdict(id, chain[0]);
    forall j | 0 <= j < |Steps(id, chain)|
      ensures var so_far, step := VerdictsFromFirst(id, chain), Steps(id, chain)[j];
        Worse(so_far[j], step) != Breaking ==> so_far[j + 1] == Worse(so_far[j], step)
    {
      NextVerdict(id, chain, j);
    }
  }

  /** Along a chain of releases, up to the first break, the verdict from the first to any later one is
      the worst verdict of the steps between them. */
  lemma {:induction false} ChainVerdict(id: Naming, chain: seq<Surface>, k: nat)
    requires k < |chain| && WorstOf(Steps(id, chain)[..k]) != Breaking
    ensures Classify(id, chain[0], chain[k]) == WorstOf(Steps(id, chain)[..k])
  {
    VerdictsAccumulate(id, chain);
    StepsAddUp(VerdictsFromFirst(id, chain), Steps(id, chain), k);
  }
}
