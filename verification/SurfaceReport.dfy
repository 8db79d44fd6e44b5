/** What the report on two whole surfaces lists: which types, annotations and members, under which words. */
module SurfaceReport {
  import opened Basics
  import opened SortedNames
  import opened SurfaceModel
  import opened SurfaceDiff
  import opened DiffLaws
  import opened DiffReport

  // ---- one type at a time -------------------------------------------------

  lemma {:induction false} AmongListed(id: Naming, qs: seq<string>, o: Surface, n: Surface, c: Change)
    ensures c in ChangesAmong(id, qs, o, n) <==> exists i :: 0 <= i < |qs| && c in ChangesAt(id, qs[i], o, n)
  {
    if qs != [] {
      var init, last := qs[..|qs| - 1], qs[|qs| - 1];
      AmongListed(id, init, o, n, c);
      if i :| 0 <= i < |init| && c in ChangesAt(id, init[i], o, n) {
        assert qs[i] == init[i];
      }
      if i :| 0 <= i < |qs| && c in ChangesAt(id, qs[i], o, n) {
        assert i < |init| ==> init[i] == qs[i];
      }
    }
  }

  /** A change is listed exactly when it is one of some type's changes. */
  lemma {:induction false} ListedAt(id: Naming, o: Surface, n: Surface, c: Change)
    ensures c in Changes(id, o, n) <==> exists q :: c in ChangesAt(id, q, o, n)
  {
    var qs := Listing(o.Keys + n.Keys);
    AmongListed(id, qs, o, n, c);
    if q :| c in ChangesAt(id, q, o, n) {
      assert q in qs;
      var i :| 0 <= i < |qs| && qs[i] == q;
    }
  }

  /** The words a type is reported under: what kind it is, and its name. */
  function Place(kind: Kind, q: string): string {
    match kind
    case Interface => "interface " + q
    case Parcelable => "parcelable " + q
    case Union => "union " + q
    case Enum => "enum " + q
  }

  lemma {:induction false} WhereIsPlace(q: string, t: TypeDecl)
    ensures Where(q, t) == Place(t.kind, q)
  {
  }

  lemma {:induction false} PlacesDiffer(k: Kind, q: string, l: Kind, r: string)
    requires Place(k, q) == Place(l, r)
    ensures k == l && q == r
  {
    var p := Place(k, q);
    assert p[0] == Place(l, r)[0] && p[1] == Place(l, r)[1];
    match k
    case Interface => assert p[10..] == q && Place(l, r)[10..] == r;
    case Parcelable => assert p[11..] == q && Place(l, r)[11..] == r;
    case Union => assert p[6..] == q && Place(l, r)[6..] == r;
    case Enum => assert p[5..] == q && Place(l, r)[5..] == r;
  }

  ghost predicate AllUnder(changes: seq<Change>, where: string) {
    forall c :: c in changes ==> c.where == where
  }

  lemma {:induction false} UnderBoth(a: seq<Change>, b: seq<Change>, where: string)
    requires AllUnder(a, where) && AllUnder(b, where)
    ensures AllUnder(a + b, where)
  {
  }

  lemma {:induction false} LossesUnder(sort: Sort, where: string, names: seq<string>, om: map<string, string>, nm: map<string, string>)
    requires forall n :: n in names ==> n in om
    ensures AllUnder(Losses(sort, where, names, om, nm), where)
  {
    if names != [] {
      LossesUnder(sort, where, names[..|names| - 1], om, nm);
    }
  }

  lemma {:induction false} GainsUnder(kind: Kind, sort: Sort, where: string, names: seq<string>, om: map<string, string>, nm: map<string, string>)
    requires forall n :: n in names ==> n in nm
    ensures AllUnder(Gains(kind, sort, where, names, om, nm), where)
  {
    if names != [] {
      GainsUnder(kind, sort, where, names[..|names| - 1], om, nm);
    }
  }

  lemma {:induction false} NamedUnder(id: Naming, sort: Sort, where: string, before: seq<string>, after: seq<string>)
    ensures AllUnder(NamedChanges(id, sort, where, before, after), where)
  {
    var om, nm := ByName(id, Enum, before), ByName(id, Enum, after);
    LossesUnder(sort, where, Listing(om.Keys), om, nm);
    GainsUnder(Enum, sort, where, Listing(nm.Keys), om, nm);
    UnderBoth(Losses(sort, where, Listing(om.Keys), om, nm), Gains(Enum, sort, where, Listing(nm.Keys), om, nm), where);
  }

  lemma {:induction false} OrderedUnder(kind: Kind, sort: Sort, where: string, on: seq<string>, nn: seq<string>,
                                        om: map<string, string>, nm: map<string, string>)
    requires (forall n :: n in om <==> n in on) && (forall n :: n in nm <==> n in nn)
    ensures AllUnder(OrderedChanges(kind, sort, where, on, nn, om, nm), where)
  {
    var kept := Survivors(on, nm.Keys);
    LossesUnder(sort, where, Firsts(on), om, nm);
    if IsPrefix(kept, nn) {
      GainsUnder(kind, sort, where, nn[|kept|..], om, nm);
    }
  }

  lemma {:induction false} SequenceUnder(id: Naming, kind: Kind, sort: Sort, where: string, before: seq<string>, after: seq<string>)
    ensures AllUnder(SequenceChanges(id, kind, sort, where, before, after), where)
  {
    ByNameKeys(id, kind, before);
    ByNameKeys(id, kind, after);
    OrderedUnder(kind, sort, where, Names(id, kind, before), Names(id, kind, after), ByName(id, kind, before), ByName(id, kind, after));
  }

  lemma {:induction false} MembersUnder(id: Naming, where: string, o: TypeDecl, n: TypeDecl)
    ensures AllUnder(MemberChanges(id, where, o, n), where)
  {
    if o.kind == Enum {
      NamedUnder(id, EnumValue, where, o.members, n.members);
    } else {
      NamedUnder(id, Const, where, Consts(o.members), Consts(n.members));
      SequenceUnder(id, o.kind, SortOf(o.kind), where, Rest(o.members), Rest(n.members));
      UnderBoth(NamedChanges(id, Const, where, Consts(o.members), Consts(n.members)),
                SequenceChanges(id, o.kind, SortOf(o.kind), where, Rest(o.members), Rest(n.members)), where);
    }
  }

  lemma {:induction false} AnnotationsListed(where: string, annotations: seq<string>, c: Change)
    ensures c in Dropped(where, annotations) <==> c.symbol in annotations && c == Change(Breaking, AnnotationRemoved, where, c.symbol, None, None)
    ensures c in Gained(where, annotations) <==>
      c.symbol in annotations && c == Change(if c.symbol == STABILITY then Major else Breaking, AnnotationAdded, where, c.symbol, None, None)
  {
    if annotations != [] {
      var init, last := annotations[..|annotations| - 1], annotations[|annotations| - 1];
      assert annotations == init + [last];
      AnnotationsListed(where, init, c);
    }
  }

  lemma {:induction false} AnnotationChangesListed(where: string, o: TypeDecl, n: TypeDecl, c: Change)
    ensures c in AnnotationChanges(where, o, n) <==>
      || (c.symbol in AnnotationSet(o) - AnnotationSet(n) && c == Change(Breaking, AnnotationRemoved, where, c.symbol, None, None))
      || (c.symbol in AnnotationSet(n) - AnnotationSet(o) &&
            c == Change(if c.symbol == STABILITY then Major else Breaking, AnnotationAdded, where, c.symbol, None, None))
  {
    AnnotationsListed(where, Listing(AnnotationSet(o) - AnnotationSet(n)), c);
    AnnotationsListed(where, Listing(AnnotationSet(n) - AnnotationSet(o)), c);
  }

  ghost predicate OfMember(kind: ChangeKind) {
    kind.Removed? || kind.Changed? || kind.Added? || kind.Reordered? || kind.UnionArmAdded?
  }

  ghost predicate AllOfMembers(changes: seq<Change>) {
    forall c :: c in changes ==> OfMember(c.kind)
  }

  lemma {:induction false} LossesOfMembers(sort: Sort, where: string, names: seq<string>, om: map<string, string>, nm: map<string, string>)
    requires forall n :: n in names ==> n in om
    ensures AllOfMembers(Losses(sort, where, names, om, nm))
  {
    if names != [] {
      LossesOfMembers(sort, where, names[..|names| - 1], om, nm);
    }
  }

  lemma {:induction false} GainsOfMembers(kind: Kind, sort: Sort, where: string, names: seq<string>, om: map<string, string>, nm: map<string, string>)
    requires forall n :: n in names ==> n in nm
    ensures AllOfMembers(Gains(kind, sort, where, names, om, nm))
  {
    if names != [] {
      GainsOfMembers(kind, sort, where, names[..|names| - 1], om, nm);
    }
  }

  lemma {:induction false} NamedOfMembers(id: Naming, sort: Sort, where: string, before: seq<string>, after: seq<string>)
    ensures AllOfMembers(NamedChanges(id, sort, where, before, after))
  {
    var om, nm := ByName(id, Enum, before), ByName(id, Enum, after);
    LossesOfMembers(sort, where, Listing(om.Keys), om, nm);
    GainsOfMembers(Enum, sort, where, Listing(nm.Keys), om, nm);
  }

  lemma {:induction false} OrderedOfMembers(kind: Kind, sort: Sort, where: string, on: seq<string>, nn: seq<string>,
                                            om: map<string, string>, nm: map<string, string>)
    requires (forall n :: n in om <==> n in on) && (forall n :: n in nm <==> n in nn)
    ensures AllOfMembers(OrderedChanges(kind, sort, where, on, nn, om, nm))
  {
    var kept := Survivors(on, nm.Keys);
    LossesOfMembers(sort, where, Firsts(on), om, nm);
    if IsPrefix(kept, nn) {
      GainsOfMembers(kind, sort, where, nn[|kept|..], om, nm);
    }
  }

  lemma {:induction false} MemberChangesOfMembers(id: Naming, where: string, o: TypeDecl, n: TypeDecl)
    ensures AllOfMembers(MemberChanges(id, where, o, n))
  {
    if o.kind == Enum {
      NamedOfMembers(id, EnumValue, where, o.members, n.members);
    } else {
      var before, after := Rest(o.members), Rest(n.members);
      NamedOfMembers(id, Const, where, Consts(o.members), Consts(n.members));
      ByNameKeys(id, o.kind, before);
      ByNameKeys(id, o.kind, after);
      OrderedOfMembers(o.kind, SortOf(o.kind), where, Names(id, o.kind, before), Names(id, o.kind, after),
                       ByName(id, o.kind, before), ByName(id, o.kind, after));
    }
  }

  // ---- where a change belongs ---------------------------------------------

  /** The kind a type is reported as: its new one, or its old one when it is gone. */
  function KindAt(q: string, o: Surface, n: Surface): Kind {
    if q in n then n[q].kind else if q in o then o[q].kind else Interface
  }

  lemma {:induction false} TypeUnder(id: Naming, q: string, o: TypeDecl, n: TypeDecl, c: Change)
    requires c in TypeChanges(id, q, o, n)
    ensures c.where == Place(n.kind, q)
  {
    var where := Where(q, n);
    WhereIsPlace(q, n);
    AnnotationChangesListed(where, o, n, c);
    MembersUnder(id, where, o, n);
  }

  lemma {:induction false} AtUnder(id: Naming, q: string, o: Surface, n: Surface, c: Change)
    requires c in ChangesAt(id, q, o, n)
    ensures c.where == Place(KindAt(q, o, n), q)
  {
    if q in o && q in n {
      TypeUnder(id, q, o[q], n[q], c);
    } else if q in o {
      WhereIsPlace(q, o[q]);
    } else {
      WhereIsPlace(q, n[q]);
    }
  }

  /** A change under the words for `q` is a change of `q`. */
  lemma {:induction false} ListedUnder(id: Naming, o: Surface, n: Surface, q: string, c: Change)
    requires c.where == Place(KindAt(q, o, n), q)
    ensures c in Changes(id, o, n) <==> c in ChangesAt(id, q, o, n)
  {
    ListedAt(id, o, n, c);
    if r :| c in ChangesAt(id, r, o, n) {
      AtUnder(id, r, o, n, c);
      PlacesDiffer(KindAt(q, o, n), q, KindAt(r, o, n), r);
    }
  }

  /** Every change is listed under the words of a type that one of the surfaces declares. */
  lemma {:induction false} ListedSomewhere(id: Naming, o: Surface, n: Surface, c: Change)
    requires c in Changes(id, o, n)
    ensures exists q :: (q in o || q in n) && c.where == Place(KindAt(q, o, n), q)
  {
    ListedAt(id, o, n, c);
    var q :| c in ChangesAt(id, q, o, n);
    AtUnder(id, q, o, n, c);
  }

  // ---- types and annotations ----------------------------------------------

  lemma {:induction false} HeadOnly(id: Naming, q: string, o: TypeDecl, n: TypeDecl, c: Change)
    requires c.kind.TypeRemoved? || c.kind.TypeAdded? || c.kind.TypeChanged?
    ensures c in TypeChanges(id, q, o, n) <==> c in HeadChanges(q, o, n)
  {
    var where := Where(q, n);
    AnnotationChangesListed(where, o, n, c);
    MemberChangesOfMembers(id, where, o, n);
  }

  lemma {:induction false} TypeAt(id: Naming, o: Surface, n: Surface, q: string, c: Change)
    requires (q in o || q in n) && (c.kind.TypeRemoved? || c.kind.TypeAdded?) && c.where == Place(KindAt(q, o, n), q)
    ensures c in Changes(id, o, n) <==>
      || (q !in n && c == Change(Breaking, TypeRemoved, c.where, q, None, None))
      || (q !in o && c == Change(Major, TypeAdded, c.where, q, None, None))
  {
    ListedUnder(id, o, n, q, c);
    if q in o && q in n {
      HeadOnly(id, q, o[q], n[q], c);
    } else {
      WhereIsPlace(q, if q in o then o[q] else n[q]);
    }
  }

  /** A type is reported as removed, or as added, exactly when it is. */
  lemma {:induction false} TypeReport(id: Naming, o: Surface, n: Surface, q: string)
    requires q in o || q in n
    ensures Change(Breaking, TypeRemoved, Place(KindAt(q, o, n), q), q, None, None) in Changes(id, o, n) <==> q !in n
    ensures Change(Major, TypeAdded, Place(KindAt(q, o, n), q), q, None, None) in Changes(id, o, n) <==> q !in o
  {
    TypeAt(id, o, n, q, Change(Breaking, TypeRemoved, Place(KindAt(q, o, n), q), q, None, None));
    TypeAt(id, o, n, q, Change(Major, TypeAdded, Place(KindAt(q, o, n), q), q, None, None));
  }

  /** The words before a type's name in a dump. */
  function HeadWords(t: TypeDecl): string {
    match t.kind
    case Interface => if t.oneway then "oneway interface" else "interface"
    case Parcelable => if t.oneway then "oneway parcelable" else "parcelable"
    case Union => if t.oneway then "oneway union" else "union"
    case Enum => if t.oneway then "oneway enum" else "enum"
  }

  lemma {:induction false} HeadIsWords(t: TypeDecl)
    ensures Head(t) == HeadWords(t)
  {
  }

  lemma {:induction false} WordsDiffer(o: TypeDecl, n: TypeDecl)
    requires HeadWords(o) == HeadWords(n)
    ensures o.kind == n.kind && o.oneway == n.oneway
  {
    assert |HeadWords(o)| == |HeadWords(n)|;
  }

  /** A change of kind or of `oneway` is reported with the words before and after. */
  lemma {:induction false} HeadReport(id: Naming, o: Surface, n: Surface, q: string)
    requires q in o && q in n
    ensures Change(Breaking, TypeChanged, Place(n[q].kind, q), q, Some(HeadWords(o[q])), Some(HeadWords(n[q]))) in Changes(id, o, n) <==>
            o[q].kind != n[q].kind || o[q].oneway != n[q].oneway
  {
    var c := Change(Breaking, TypeChanged, Place(n[q].kind, q), q, Some(HeadWords(o[q])), Some(HeadWords(n[q])));
    ListedUnder(id, o, n, q, c);
    HeadOnly(id, q, o[q], n[q], c);
    HeadIsWords(o[q]);
    HeadIsWords(n[q]);
    WhereIsPlace(q, n[q]);
  }

  lemma {:induction false} AnnotationOnly(id: Naming, q: string, o: TypeDecl, n: TypeDecl, c: Change)
    requires c.kind.AnnotationRemoved? || c.kind.AnnotationAdded?
    ensures c in TypeChanges(id, q, o, n) <==> c in AnnotationChanges(Where(q, n), o, n)
  {
    MemberChangesOfMembers(id, Where(q, n), o, n);
  }

  lemma {:induction false} AnnotationUnder(id: Naming, o: Surface, n: Surface, q: string, c: Change)
    requires q in o && q in n && (c.kind.AnnotationRemoved? || c.kind.AnnotationAdded?) && c.where == Place(n[q].kind, q)
    ensures c in Changes(id, o, n) <==> c in AnnotationChanges(c.where, o[q], n[q])
  {
    ListedUnder(id, o, n, q, c);
    AnnotationOnly(id, q, o[q], n[q], c);
    WhereIsPlace(q, n[q]);
  }

  /** An annotation is reported as removed exactly when it is. */
  lemma {:induction false} LostAnnotationReport(id: Naming, o: Surface, n: Surface, q: string, a: string)
    requires q in o && q in n
    ensures Change(Breaking, AnnotationRemoved, Place(n[q].kind, q), a, None, None) in Changes(id, o, n) <==>
            a in o[q].annotations && a !in n[q].annotations
  {
    var c := Change(Breaking, AnnotationRemoved, Place(n[q].kind, q), a, None, None);
    AnnotationUnder(id, o, n, q, c);
    AnnotationChangesListed(c.where, o[q], n[q], c);
  }

  /** And as added exactly when it is; only the stability promise is added without breaking. */
  lemma {:induction false} NewAnnotationReport(id: Naming, o: Surface, n: Surface, q: string, a: string)
    requires q in o && q in n
    ensures Change(if a == "@VintfStability" then Major else Breaking, AnnotationAdded, Place(n[q].kind, q), a, None, None) in Changes(id, o, n) <==>
            a in n[q].annotations && a !in o[q].annotations
  {
    var c := Change(if a == "@VintfStability" then Major else Breaking, AnnotationAdded, Place(n[q].kind, q), a, None, None);
    AnnotationUnder(id, o, n, q, c);
    AnnotationChangesListed(c.where, o[q], n[q], c);
  }

  // ---- members ------------------------------------------------------------

  lemma {:induction false} MemberOnly(id: Naming, o: Surface, n: Surface, q: string, c: Change)
    requires q in o && q in n && OfMember(c.kind) && c.where == Place(n[q].kind, q)
    ensures c in Changes(id, o, n) <==> c in MemberChanges(id, Place(n[q].kind, q), o[q], n[q])
  {
    ListedUnder(id, o, n, q, c);
    AnnotationChangesListed(Where(q, n[q]), o[q], n[q], c);
    WhereIsPlace(q, n[q]);
  }

  /** What the report lists of a map of members: removed iff gone, changed iff the line differs. */
  ghost predicate LossesReported(report: seq<Change>, sort: Sort, where: string, om: map<string, string>, nm: map<string, string>, k: string, x: string, y: string) {
    && (RemovedAs(sort, where, k, x) in report <==> k in om && om[k] == x && k !in nm)
    && (ChangedAs(sort, where, k, x, y) in report <==> k in om && k in nm && om[k] == x && nm[k] == y && x != y)
  }

  /** Enumerators are reported as such, by name. */
  lemma {:induction false} EnumReport(id: Naming, o: Surface, n: Surface, q: string, k: string, x: string, y: string)
    requires q in o && q in n && o[q].kind == Enum
    ensures var om, nm, where := ByName(id, Enum, o[q].members), ByName(id, Enum, n[q].members), Place(n[q].kind, q);
      && LossesReported(Changes(id, o, n), EnumValue, where, om, nm, k, x, y)
      && (Change(Major, Added(EnumValue), where, x, None, None) in Changes(id, o, n) <==> IsNewLine(om, nm, x))
  {
    var where := Place(n[q].kind, q);
    MemberOnly(id, o, n, q, RemovedAs(EnumValue, where, k, x));
    MemberOnly(id, o, n, q, ChangedAs(EnumValue, where, k, x, y));
    MemberOnly(id, o, n, q, Change(Major, Added(EnumValue), where, x, None, None));
    NamedReport(id, EnumValue, where, o[q].members, n[q].members, k, x, y);
  }

  ghost predicate AllOfSort(changes: seq<Change>, sort: Sort) {
    forall c :: c in changes ==> (c.kind.UnionArmAdded? && sort != Const) || (!c.kind.UnionArmAdded? && OfMember(c.kind) && c.kind.sort == sort)
  }

  lemma {:induction false} LossesOfSort(sort: Sort, where: string, names: seq<string>, om: map<string, string>, nm: map<string, string>)
    requires forall n :: n in names ==> n in om
    ensures AllOfSort(Losses(sort, where, names, om, nm), sort)
  {
    if names != [] {
      LossesOfSort(sort, where, names[..|names| - 1], om, nm);
    }
  }

  lemma {:induction false} GainsOfSort(kind: Kind, sort: Sort, where: string, names: seq<string>, om: map<string, string>, nm: map<string, string>)
    requires (forall n :: n in names ==> n in nm) && (kind == Union ==> sort != Const)
    ensures AllOfSort(Gains(kind, sort, where, names, om, nm), sort)
  {
    if names != [] {
      GainsOfSort(kind, sort, where, names[..|names| - 1], om, nm);
    }
  }

  lemma {:induction false} ConstsOfSort(id: Naming, where: string, before: seq<string>, after: seq<string>)
    ensures AllOfSort(NamedChanges(id, Const, where, before, after), Const)
  {
    var om, nm := ByName(id, Enum, before), ByName(id, Enum, after);
    LossesOfSort(Const, where, Listing(om.Keys), om, nm);
    GainsOfSort(Enum, Const, where, Listing(nm.Keys), om, nm);
  }

  lemma {:induction false} OrderedOfSort(kind: Kind, sort: Sort, where: string, on: seq<string>, nn: seq<string>,
                                         om: map<string, string>, nm: map<string, string>)
    requires (forall n :: n in om <==> n in on) && (forall n :: n in nm <==> n in nn) && sort != Const
    ensures AllOfSort(OrderedChanges(kind, sort, where, on, nn, om, nm), sort)
  {
    var kept := Survivors(on, nm.Keys);
    LossesOfSort(sort, where, Firsts(on), om, nm);
    if IsPrefix(kept, nn) {
      GainsOfSort(kind, sort, where, nn[|kept|..], om, nm);
    }
  }

  /** Constants and the other members are told apart by what they are called. */
  lemma {:induction false} SortsApart(id: Naming, where: string, o: TypeDecl, n: TypeDecl, c: Change)
    requires o.kind != Enum && OfMember(c.kind)
    ensures !c.kind.UnionArmAdded? && c.kind.sort == Const ==>
      (c in MemberChanges(id, where, o, n) <==> c in NamedChanges(id, Const, where, Consts(o.members), Consts(n.members)))
    ensures c.kind.UnionArmAdded? || c.kind.sort != Const ==>
      (c in MemberChanges(id, where, o, n) <==> c in SequenceChanges(id, o.kind, SortOf(o.kind), where, Rest(o.members), Rest(n.members)))
  {
    var before, after := Rest(o.members), Rest(n.members);
    ConstsOfSort(id, where, Consts(o.members), Consts(n.members));
    ByNameKeys(id, o.kind, before);
    ByNameKeys(id, o.kind, after);
    OrderedOfSort(o.kind, SortOf(o.kind), where, Names(id, o.kind, before), Names(id, o.kind, after),
                  ByName(id, o.kind, before), ByName(id, o.kind, after));
  }

  /** Constants are reported as such, by name. */
  lemma {:induction false} ConstReport(id: Naming, o: Surface, n: Surface, q: string, k: string, x: string, y: string)
    requires q in o && q in n && o[q].kind != Enum
    ensures var om, nm, where := ByName(id, Enum, Consts(o[q].members)), ByName(id, Enum, Consts(n[q].members)), Place(n[q].kind, q);
      && LossesReported(Changes(id, o, n), Const, where, om, nm, k, x, y)
      && (Change(Major, Added(Const), where, x, None, None) in Changes(id, o, n) <==> IsNewLine(om, nm, x))
  {
    var where := Place(n[q].kind, q);
    var a, b, c := RemovedAs(Const, where, k, x), ChangedAs(Const, where, k, x, y), Change(Major, Added(Const), where, x, None, None);
    MemberOnly(id, o, n, q, a);
    MemberOnly(id, o, n, q, b);
    MemberOnly(id, o, n, q, c);
    SortsApart(id, where, o[q], n[q], a);
    SortsApart(id, where, o[q], n[q], b);
    SortsApart(id, where, o[q], n[q], c);
    NamedReport(id, Const, where, Consts(o[q].members), Consts(n[q].members), k, x, y);
  }

  /** The other members of an interface are reported as methods, those of a parcelable or union as fields. */
  lemma {:induction false} OtherReport(id: Naming, o: Surface, n: Surface, q: string, k: string, x: string, y: string)
    requires q in o && q in n && o[q].kind != Enum
    ensures var om, nm, where := ByName(id, o[q].kind, Rest(o[q].members)), ByName(id, o[q].kind, Rest(n[q].members)), Place(n[q].kind, q);
      LossesReported(Changes(id, o, n), if o[q].kind == Interface then Method else Field, where, om, nm, k, x, y)
  {
    var where, sort, kind := Place(n[q].kind, q), if o[q].kind == Interface then Method else Field, o[q].kind;
    var before, after := Rest(o[q].members), Rest(n[q].members);
    var a, b := RemovedAs(sort, where, k, x), ChangedAs(sort, where, k, x, y);
    MemberOnly(id, o, n, q, a);
    MemberOnly(id, o, n, q, b);
    SortsApart(id, where, o[q], n[q], a);
    SortsApart(id, where, o[q], n[q], b);
    if IsPrefix(Survivors(Names(id, kind, before), ByName(id, kind, after).Keys), Names(id, kind, after)) {
      OrderedReport(id, kind, sort, where, before, after, k, x, y);
    } else {
      ReorderedReport(id, kind, sort, where, before, after, k, x, y);
    }
  }

  /** A gain is listed among them exactly when it is new and no survivor is out of place; a reordering exactly
      when one is. */
  lemma {:induction false} GainReport(id: Naming, o: Surface, n: Surface, q: string, x: string)
    requires q in o && q in n && o[q].kind != Enum
    ensures var om, nm, where := ByName(id, o[q].kind, Rest(o[q].members)), ByName(id, o[q].kind, Rest(n[q].members)), Place(n[q].kind, q);
      var moved := OutOfPlace(Names(id, o[q].kind, Rest(o[q].members)), Names(id, o[q].kind, Rest(n[q].members)), nm.Keys);
      AddedAs(o[q].kind, if o[q].kind == Interface then Method else Field, where, x) in Changes(id, o, n) <==> !moved && IsNewLine(om, nm, x)
  {
    var where, sort, kind := Place(n[q].kind, q), if o[q].kind == Interface then Method else Field, o[q].kind;
    var before, after := Rest(o[q].members), Rest(n[q].members);
    var a := AddedAs(kind, sort, where, x);
    MemberOnly(id, o, n, q, a);
    SortsApart(id, where, o[q], n[q], a);
    MovedIsOutOfPlace(Names(id, kind, before), Names(id, kind, after), ByName(id, kind, after).Keys);
    if IsPrefix(Survivors(Names(id, kind, before), ByName(id, kind, after).Keys), Names(id, kind, after)) {
      OrderedReport(id, kind, sort, where, before, after, "", x, "");
    } else {
      ReorderedReport(id, kind, sort, where, before, after, "", x, "");
    }
  }

  lemma {:induction false} LossesDoNotReorder(sort: Sort, where: string, names: seq<string>, om: map<string, string>, nm: map<string, string>, c: Change)
    requires (forall n :: n in names ==> n in om) && c in Losses(sort, where, names, om, nm)
    ensures !c.kind.Reordered?
  {
    LossesListed(sort, where, names, om, nm, c);
  }

  lemma {:induction false} ReorderOnce(kind: Kind, sort: Sort, where: string, on: seq<string>, nn: seq<string>,
                                       om: map<string, string>, nm: map<string, string>, symbol: string)
    requires (forall n :: n in om <==> n in on) && (forall n :: n in nm <==> n in nn)
    ensures Change(Breaking, Reordered(sort), where, symbol, None, None) in OrderedChanges(kind, sort, where, on, nn, om, nm) <==>
            OutOfPlace(on, nn, nm.Keys) && symbol == Join(Survivors(on, nm.Keys))
  {
    var c, kept := Change(Breaking, Reordered(sort), where, symbol, None, None), Survivors(on, nm.Keys);
    MovedIsOutOfPlace(on, nn, nm.Keys);
    if c in Losses(sort, where, Firsts(on), om, nm) {
      LossesDoNotReorder(sort, where, Firsts(on), om, nm, c);
    }
    if IsPrefix(kept, nn) && c in Gains(kind, sort, where, nn[|kept|..], om, nm) {
      GainsHaveNoOld(kind, sort, where, nn[|kept|..], om, nm, c);
    }
  }

  lemma {:induction false} ReorderReport(id: Naming, o: Surface, n: Surface, q: string, symbol: string)
    requires q in o && q in n && o[q].kind != Enum
    ensures var on, nn := Names(id, o[q].kind, Rest(o[q].members)), Names(id, o[q].kind, Rest(n[q].members));
      var keys := ByName(id, o[q].kind, Rest(n[q].members)).Keys;
      Change(Breaking, Reordered(if o[q].kind == Interface then Method else Field), Place(n[q].kind, q), symbol, None, None) in Changes(id, o, n) <==>
        OutOfPlace(on, nn, keys) && symbol == Join(Survivors(on, keys))
  {
    var where, sort, kind := Place(n[q].kind, q), if o[q].kind == Interface then Method else Field, o[q].kind;
    var before, after := Rest(o[q].members), Rest(n[q].members);
    var c := Change(Breaking, Reordered(sort), where, symbol, None, None);
    MemberOnly(id, o, n, q, c);
    SortsApart(id, where, o[q], n[q], c);
    ByNameKeys(id, kind, before);
    ByNameKeys(id, kind, after);
    ReorderOnce(kind, sort, where, Names(id, kind, before), Names(id, kind, after), ByName(id, kind, before), ByName(id, kind, after), symbol);
  }

  // ---- the order of the report --------------------------------------------

  predicate Unordered(sort: Sort) {
    sort == EnumValue || sort == Const
  }

  /** Where a change of a type stands: the head, annotations lost and gained, enumerators or constants lost
      and gained, fields or methods lost, and last those gained or the reordering. */
  function Stage(kind: ChangeKind): nat {
    match kind
    case TypeRemoved => 0
    case TypeAdded => 0
    case TypeChanged => 0
    case AnnotationRemoved => 1
    case AnnotationAdded => 2
    case Removed(sort) => if Unordered(sort) then 3 else 5
    case Changed(sort) => if Unordered(sort) then 3 else 5
    case Added(sort) => if Unordered(sort) then 4 else 6
    case Reordered(_) => 6
    case UnionArmAdded => 6
  }

  ghost predicate Within(changes: seq<Change>, lo: nat, hi: nat) {
    forall i :: 0 <= i < |changes| ==> lo <= Stage(changes[i].kind) <= hi
  }

  ghost predicate Staged(changes: seq<Change>) {
    forall i, j :: 0 <= i < j < |changes| ==> Stage(changes[i].kind) <= Stage(changes[j].kind)
  }

  lemma {:induction false} StagedBoth(a: seq<Change>, b: seq<Change>, lo: nat, mid: nat, hi: nat)
    requires Staged(a) && Staged(b) && lo <= mid <= hi && Within(a, lo, mid) && Within(b, mid, hi)
    ensures Staged(a + b) && Within(a + b, lo, hi)
  {
  }

  lemma {:induction false} LossesStage(sort: Sort, where: string, names: seq<string>, om: map<string, string>, nm: map<string, string>)
    requires forall n :: n in names ==> n in om
    ensures var k := if Unordered(sort) then 3 else 5; Within(Losses(sort, where, names, om, nm), k, k)
  {
    if names != [] {
      LossesStage(sort, where, names[..|names| - 1], om, nm);
    }
  }

  lemma {:induction false} GainsStage(kind: Kind, sort: Sort, where: string, names: seq<string>, om: map<string, string>, nm: map<string, string>)
    requires (forall n :: n in names ==> n in nm) && (kind == Union ==> !Unordered(sort))
    ensures var k := if Unordered(sort) then 4 else 6; Within(Gains(kind, sort, where, names, om, nm), k, k)
  {
    if names != [] {
      GainsStage(kind, sort, where, names[..|names| - 1], om, nm);
    }
  }

  lemma {:induction false} NamedStage(id: Naming, sort: Sort, where: string, before: seq<string>, after: seq<string>)
    requires Unordered(sort)
    ensures Staged(NamedChanges(id, sort, where, before, after)) && Within(NamedChanges(id, sort, where, before, after), 3, 4)
  {
    var om, nm := ByName(id, Enum, before), ByName(id, Enum, after);
    LossesStage(sort, where, Listing(om.Keys), om, nm);
    GainsStage(Enum, sort, where, Listing(nm.Keys), om, nm);
    StagedBoth(Losses(sort, where, Listing(om.Keys), om, nm), Gains(Enum, sort, where, Listing(nm.Keys), om, nm), 3, 4, 4);
  }

  lemma {:induction false} LevelIsStaged(changes: seq<Change>, k: nat)
    requires Within(changes, k, k)
    ensures Staged(changes)
  {
  }

  lemma {:induction false} RestStage(kind: Kind, sort: Sort, where: string, kept: seq<string>, nn: seq<string>,
                                     om: map<string, string>, nm: map<string, string>)
    requires (forall n :: n in nm <==> n in nn) && !Unordered(sort)
    ensures IsPrefix(kept, nn) ==> Within(Gains(kind, sort, where, nn[|kept|..], om, nm), 6, 6)
    ensures Within([Change(Breaking, Reordered(sort), where, Join(kept), None, None)], 6, 6)
  {
    if IsPrefix(kept, nn) {
      GainsStage(kind, sort, where, nn[|kept|..], om, nm);
    }
  }

  lemma {:induction false} OrderedStage(kind: Kind, sort: Sort, where: string, on: seq<string>, nn: seq<string>,
                                        om: map<string, string>, nm: map<string, string>)
    requires (forall n :: n in om <==> n in on) && (forall n :: n in nm <==> n in nn) && !Unordered(sort)
    ensures Staged(OrderedChanges(kind, sort, where, on, nn, om, nm)) && Within(OrderedChanges(kind, sort, where, on, nn, om, nm), 5, 6)
  {
    var kept, losses := Survivors(on, nm.Keys), Losses(sort, where, Firsts(on), om, nm);
    LossesStage(sort, where, Firsts(on), om, nm);
    RestStage(kind, sort, where, kept, nn, om, nm);
    var rest := if IsPrefix(kept, nn) then Gains(kind, sort, where, nn[|kept|..], om, nm)
                else [Change(Breaking, Reordered(sort), where, Join(kept), None, None)];
    LevelIsStaged(losses, 5);
    LevelIsStaged(rest, 6);
    StagedBoth(losses, rest, 5, 6, 6);
  }

  lemma {:induction false} MembersStage(id: Naming, where: string, o: TypeDecl, n: TypeDecl)
    ensures Staged(MemberChanges(id, where, o, n)) && Within(MemberChanges(id, where, o, n), 3, 6)
  {
    if o.kind == Enum {
      NamedStage(id, EnumValue, where, o.members, n.members);
    } else {
      var before, after, kind := Rest(o.members), Rest(n.members), o.kind;
      NamedStage(id, Const, where, Consts(o.members), Consts(n.members));
      ByNameKeys(id, kind, before);
      ByNameKeys(id, kind, after);
      OrderedStage(kind, SortOf(kind), where, Names(id, kind, before), Names(id, kind, after),
                   ByName(id, kind, before), ByName(id, kind, after));
      StagedBoth(NamedChanges(id, Const, where, Consts(o.members), Consts(n.members)),
                 SequenceChanges(id, kind, SortOf(kind), where, before, after), 3, 5, 6);
    }
  }

  lemma {:induction false} AnnotationsStage(where: string, annotations: seq<string>)
    ensures Within(Dropped(where, annotations), 1, 1) && Within(Gained(where, annotations), 2, 2)
  {
    if annotations != [] {
      AnnotationsStage(where, annotations[..|annotations| - 1]);
    }
  }

  lemma {:induction false} AnnotationChangesStage(where: string, o: TypeDecl, n: TypeDecl)
    ensures Staged(AnnotationChanges(where, o, n)) && Within(AnnotationChanges(where, o, n), 1, 2)
  {
    var gone, come := Listing(AnnotationSet(o) - AnnotationSet(n)), Listing(AnnotationSet(n) - AnnotationSet(o));
    AnnotationsStage(where, gone);
    AnnotationsStage(where, come);
    StagedBoth(Dropped(where, gone), Gained(where, come), 1, 2, 2);
  }

  /** The changes of one type come stage by stage. */
  lemma {:induction false} TypeStage(id: Naming, q: string, o: TypeDecl, n: TypeDecl)
    ensures Staged(TypeChanges(id, q, o, n))
  {
    var where := Where(q, n);
    AnnotationChangesStage(where, o, n);
    MembersStage(id, where, o, n);
    StagedBoth(AnnotationChanges(where, o, n), MemberChanges(id, where, o, n), 1, 3, 6);
    StagedBoth(HeadChanges(q, o, n), AnnotationChanges(where, o, n) + MemberChanges(id, where, o, n), 0, 1, 6);
  }

  lemma {:induction false} AtStage(id: Naming, q: string, o: Surface, n: Surface)
    ensures Staged(ChangesAt(id, q, o, n))
  {
    if q in o && q in n {
      TypeStage(id, q, o[q], n[q]);
    }
  }

  /** `x` and `y` are changes of two of the types, in this order, or of one, stage by stage. */
  ghost predicate InReportOrder(id: Naming, qs: seq<string>, o: Surface, n: Surface, x: Change, y: Change) {
    exists i, j :: 0 <= i <= j < |qs| && x in ChangesAt(id, qs[i], o, n) && y in ChangesAt(id, qs[j], o, n) &&
                   (i == j ==> Stage(x.kind) <= Stage(y.kind))
  }

  lemma {:induction false} AmongInOrder(id: Naming, qs: seq<string>, o: Surface, n: Surface, p: nat, r: nat)
    requires p < r < |ChangesAmong(id, qs, o, n)|
    ensures InReportOrder(id, qs, o, n, ChangesAmong(id, qs, o, n)[p], ChangesAmong(id, qs, o, n)[r])
  {
    var k := |qs| - 1;
    var init, last := qs[..k], qs[k];
    var before, now := ChangesAmong(id, init, o, n), ChangesAt(id, last, o, n);
    assert ChangesAmong(id, qs, o, n) == before + now;
    if r < |before| {
      AmongInOrder(id, init, o, n, p, r);
      var i, j :| 0 <= i <= j < |init| && before[p] in ChangesAt(id, init[i], o, n) && before[r] in ChangesAt(id, init[j], o, n) &&
                  (i == j ==> Stage(before[p].kind) <= Stage(before[r].kind));
      assert qs[i] == init[i] && qs[j] == init[j];
    } else if p < |before| {
      AmongListed(id, init, o, n, before[p]);
      var i :| 0 <= i < |init| && before[p] in ChangesAt(id, init[i], o, n);
      assert qs[i] == init[i] && qs[k] == last && (before + now)[r] == now[r - |before|];
    } else {
      AtStage(id, last, o, n);
      assert (before + now)[p] == now[p - |before|] && (before + now)[r] == now[r - |before|] && qs[k] == last;
    }
  }

  /** `x` is a change of `a` and `y` of `b`; `a` comes first, or they are one type and `x` is of no later stage. */
  ghost predicate Follows(id: Naming, o: Surface, n: Surface, a: string, x: Change, b: string, y: Change) {
    && x in ChangesAt(id, a, o, n) && y in ChangesAt(id, b, o, n)
    && (Less(a, b) || (a == b && Stage(x.kind) <= Stage(y.kind)))
  }

  lemma {:induction false} FollowsByName(id: Naming, qs: seq<string>, o: Surface, n: Surface, x: Change, y: Change)
    requires Ascending(qs) && InReportOrder(id, qs, o, n, x, y)
    ensures exists a, b :: Follows(id, o, n, a, x, b, y)
  {
    var i, j :| 0 <= i <= j < |qs| && x in ChangesAt(id, qs[i], o, n) && y in ChangesAt(id, qs[j], o, n) &&
                (i == j ==> Stage(x.kind) <= Stage(y.kind));
    assert Follows(id, o, n, qs[i], x, qs[j], y);
  }

  /** The report goes through the types by ascending name, and through each stage by stage. */
  lemma {:induction false} ReportInOrder(id: Naming, o: Surface, n: Surface, p: nat, r: nat)
    requires p < r < |Changes(id, o, n)|
    ensures exists a, b :: Follows(id, o, n, a, Changes(id, o, n)[p], b, Changes(id, o, n)[r])
  {
    var qs := Listing(o.Keys + n.Keys);
    AmongInOrder(id, qs, o, n, p, r);
    FollowsByName(id, qs, o, n, Changes(id, o, n)[p], Changes(id, o, n)[r]);
  }
}
