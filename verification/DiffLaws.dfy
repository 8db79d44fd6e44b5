/** What the diff's verdict means, and how verdicts combine. */
module DiffLaws {
  import opened Basics
  import opened SortedNames
  import opened SurfaceModel
  import opened SurfaceDiff

  // ---- the extension relation ---------------------------------------------

  ghost predicate MapExtends(om: map<string, string>, nm: map<string, string>) {
    forall k :: k in om ==> k in nm && nm[k] == om[k]
  }

  ghost predicate HasNewKey(om: map<string, string>, nm: map<string, string>) {
    exists k :: k in nm && k !in om
  }

  /** Old names first and unmoved, old lines unchanged, and for a union nothing else. */
  ghost predicate SequenceExtends(id: Naming, kind: Kind, before: seq<string>, after: seq<string>) {
    && IsPrefix(Names(id, kind, before), Names(id, kind, after))
    && MapExtends(ByName(id, kind, before), ByName(id, kind, after))
    && (kind == Union ==> !HasNewKey(ByName(id, kind, before), ByName(id, kind, after)))
  }

  /** Nothing is lost, and only the stability promise is gained. */
  ghost predicate AnnotationsExtend(o: TypeDecl, n: TypeDecl) {
    AnnotationSet(o) <= AnnotationSet(n) <= AnnotationSet(o) + {STABILITY}
  }

  ghost predicate MembersExtend(id: Naming, o: TypeDecl, n: TypeDecl) {
    if o.kind == Enum then MapExtends(ByName(id, Enum, o.members), ByName(id, Enum, n.members))
    else
      && MapExtends(ByName(id, Enum, Consts(o.members)), ByName(id, Enum, Consts(n.members)))
      && SequenceExtends(id, o.kind, Rest(o.members), Rest(n.members))
  }

  ghost predicate MembersGrow(id: Naming, o: TypeDecl, n: TypeDecl) {
    if o.kind == Enum then HasNewKey(ByName(id, Enum, o.members), ByName(id, Enum, n.members))
    else
      || HasNewKey(ByName(id, Enum, Consts(o.members)), ByName(id, Enum, Consts(n.members)))
      || HasNewKey(ByName(id, o.kind, Rest(o.members)), ByName(id, o.kind, Rest(n.members)))
  }

  ghost predicate TypeExtends(id: Naming, o: TypeDecl, n: TypeDecl) {
    o.kind == n.kind && o.oneway == n.oneway && AnnotationsExtend(o, n) && MembersExtend(id, o, n)
  }

  ghost predicate TypeGrows(id: Naming, o: TypeDecl, n: TypeDecl) {
    !(AnnotationSet(n) <= AnnotationSet(o)) || MembersGrow(id, o, n)
  }

  /** Every type of `o` survives in `n`, extended at most. */
  ghost predicate Extends(id: Naming, o: Surface, n: Surface) {
    forall q :: KeptAt(id, q, o, n)
  }

  ghost predicate KeptAt(id: Naming, q: string, o: Surface, n: Surface) {
    q in o ==> q in n && TypeExtends(id, o[q], n[q])
  }

  ghost predicate GrowsAt(id: Naming, q: string, o: Surface, n: Surface) {
    q in n && (q in o ==> TypeGrows(id, o[q], n[q]))
  }

  ghost predicate Grows(id: Naming, o: Surface, n: Surface) {
    exists q :: GrowsAt(id, q, o, n)
  }

  function Verdict(kept: bool, grows: bool): Class {
    if !kept then Breaking else if grows then Major else NoChange
  }

  // ---- severities add up --------------------------------------------------

  lemma {:induction false} WorstOfBoth(a: seq<Change>, b: seq<Change>)
    ensures Worst(a + b) == Worse(Worst(a), Worst(b))
  {
    if b == [] {
      assert a + b == a;
    } else {
      var k := |b| - 1;
      assert (a + b)[..|a + b| - 1] == a + b[..k];
      WorstOfBoth(a, b[..k]);
    }
  }

  lemma {:induction false} WorstOfOne(c: Change)
    ensures Worst([c]) == c.severity
  {
    assert [c][..0] == [];
  }

  /** The old members called `names` are all there and unchanged. */
  ghost predicate Unchanged(names: seq<string>, om: map<string, string>, nm: map<string, string>)
    requires forall n :: n in names ==> n in om
  {
    forall i :: 0 <= i < |names| ==> names[i] in nm && nm[names[i]] == om[names[i]]
  }

  ghost predicate SomeNew(names: seq<string>, om: map<string, string>) {
    exists i :: 0 <= i < |names| && names[i] !in om
  }

  lemma {:induction false} LastOfNames(names: seq<string>, om: map<string, string>, nm: map<string, string>)
    requires names != []
    ensures SomeNew(names, om) <==> SomeNew(names[..|names| - 1], om) || names[|names| - 1] !in om
    ensures (forall n :: n in names ==> n in om) ==>
      var n := names[|names| - 1];
      Unchanged(names, om, nm) <==> Unchanged(names[..|names| - 1], om, nm) && n in nm && nm[n] == om[n]
  {
    var init := names[..|names| - 1];
    assert forall i :: 0 <= i < |init| ==> init[i] == names[i];
  }

  lemma {:induction false} OneVerdict(kind: Kind, sort: Sort, where: string, n: string, om: map<string, string>, nm: map<string, string>)
    ensures n in om ==> Worst(LossOf(sort, where, n, om, nm)) == Verdict(n in nm && nm[n] == om[n], false)
    ensures n in nm ==> Worst(GainOf(kind, sort, where, n, om, nm)) == Verdict(kind != Union || n in om, n !in om)
  {
    if n in om && LossOf(sort, where, n, om, nm) != [] {
      WorstOfOne(LossOf(sort, where, n, om, nm)[0]);
    }
    if n in nm && n !in om {
      WorstOfOne(GainOf(kind, sort, where, n, om, nm)[0]);
    }
  }

  lemma {:induction false} LossesVerdict(sort: Sort, where: string, names: seq<string>, om: map<string, string>, nm: map<string, string>)
    requires forall n :: n in names ==> n in om
    ensures Worst(Losses(sort, where, names, om, nm)) == Verdict(Unchanged(names, om, nm), false)
  {
    if names != [] {
      var init, n := names[..|names| - 1], names[|names| - 1];
      LossesVerdict(sort, where, init, om, nm);
      LastOfNames(names, om, nm);
      OneVerdict(Enum, sort, where, n, om, nm);
      WorstOfBoth(Losses(sort, where, init, om, nm), LossOf(sort, where, n, om, nm));
    }
  }

  lemma {:induction false} GainsVerdict(kind: Kind, sort: Sort, where: string, names: seq<string>, om: map<string, string>, nm: map<string, string>)
    requires forall n :: n in names ==> n in nm
    ensures Worst(Gains(kind, sort, where, names, om, nm)) ==
            Verdict(kind != Union || !SomeNew(names, om), SomeNew(names, om))
  {
    if names != [] {
      var init, n := names[..|names| - 1], names[|names| - 1];
      GainsVerdict(kind, sort, where, init, om, nm);
      LastOfNames(names, om, nm);
      OneVerdict(kind, sort, where, n, om, nm);
      WorstOfBoth(Gains(kind, sort, where, init, om, nm), GainOf(kind, sort, where, n, om, nm));
    }
  }

  /** Over a listing of all keys, the two conditions are those of the dictionaries. */
  lemma {:induction false} OverAllKeys(names: seq<string>, om: map<string, string>, nm: map<string, string>)
    ensures (forall n :: n in names <==> n in om) ==> (Unchanged(names, om, nm) <==> MapExtends(om, nm))
    ensures (forall n :: n in names <==> n in nm) ==> (SomeNew(names, om) <==> HasNewKey(om, nm))
  {
    if forall n :: n in names <==> n in om {
      if Unchanged(names, om, nm) {
        forall k | k in om ensures k in nm && nm[k] == om[k] {
          var i :| 0 <= i < |names| && names[i] == k;
        }
      }
    }
    if (forall n :: n in names <==> n in nm) && HasNewKey(om, nm) {
      var k :| k in nm && k !in om;
      var i :| 0 <= i < |names| && names[i] == k;
    }
  }

  lemma {:induction false} NamedVerdict(id: Naming, sort: Sort, where: string, before: seq<string>, after: seq<string>)
    ensures Worst(NamedChanges(id, sort, where, before, after)) ==
            Verdict(MapExtends(ByName(id, Enum, before), ByName(id, Enum, after)),
                    HasNewKey(ByName(id, Enum, before), ByName(id, Enum, after)))
  {
    var om, nm := ByName(id, Enum, before), ByName(id, Enum, after);
    var lost, gained := Losses(sort, where, Listing(om.Keys), om, nm), Gains(Enum, sort, where, Listing(nm.Keys), om, nm);
    WorstOfBoth(lost, gained);
    LossesVerdict(sort, where, Listing(om.Keys), om, nm);
    GainsVerdict(Enum, sort, where, Listing(nm.Keys), om, nm);
    OverAllKeys(Listing(om.Keys), om, nm);
    OverAllKeys(Listing(nm.Keys), om, nm);
  }

  lemma {:induction false} SequenceVerdict(id: Naming, kind: Kind, sort: Sort, where: string, before: seq<string>, after: seq<string>)
    ensures Worst(SequenceChanges(id, kind, sort, where, before, after)) ==
            Verdict(SequenceExtends(id, kind, before, after), HasNewKey(ByName(id, kind, before), ByName(id, kind, after)))
  {
    var on, nn := Names(id, kind, before), Names(id, kind, after);
    var om, nm := ByName(id, kind, before), ByName(id, kind, after);
    ByNameKeys(id, kind, before);
    ByNameKeys(id, kind, after);
    if IsPrefix(Survivors(on, nm.Keys), nn) {
      UnmovedVerdict(kind, sort, where, on, nn, om, nm);
    } else {
      MovedVerdict(kind, sort, where, on, nn, om, nm);
    }
  }

  lemma {:induction false} UnmovedVerdict(kind: Kind, sort: Sort, where: string, on: seq<string>, nn: seq<string>,
                                          om: map<string, string>, nm: map<string, string>)
    requires (forall n :: n in om <==> n in on) && (forall n :: n in nm <==> n in nn)
    requires IsPrefix(Survivors(on, nm.Keys), nn)
    ensures Worst(OrderedChanges(kind, sort, where, on, nn, om, nm)) ==
            Verdict(IsPrefix(on, nn) && MapExtends(om, nm) && (kind == Union ==> !HasNewKey(om, nm)), HasNewKey(om, nm))
  {
    var rest := nn[|Survivors(on, nm.Keys)|..];
    var lost, gained := Losses(sort, where, Firsts(on), om, nm), Gains(kind, sort, where, rest, om, nm);
    WorstOfBoth(lost, gained);
    assert Worst(lost) == Verdict(MapExtends(om, nm), false) by {
      LossesVerdict(sort, where, Firsts(on), om, nm);
      OverAllKeys(Firsts(on), om, nm);
    }
    GainsVerdict(kind, sort, where, rest, om, nm);
    if MapExtends(om, nm) {
      UnmovedNames(on, nn, om, nm);
    }
  }

  lemma {:induction false} UnmovedNames(on: seq<string>, nn: seq<string>, om: map<string, string>, nm: map<string, string>)
    requires (forall n :: n in om <==> n in on) && (forall n :: n in nm <==> n in nn)
    requires IsPrefix(Survivors(on, nm.Keys), nn) && MapExtends(om, nm)
    ensures IsPrefix(on, nn) && (HasNewKey(om, nm) <==> SomeNew(nn[|Survivors(on, nm.Keys)|..], om))
  {
    AllSurvive(on, nm.Keys);
    PrefixSplits(on, nn);
    NewKeysComeLast(on, nn[|on|..], om, nm);
  }

  lemma {:induction false} AllSurvive(names: seq<string>, kept: set<string>)
    requires forall n :: n in names ==> n in kept
    ensures Survivors(names, kept) == names
  {
    if names != [] {
      AllSurvive(names[..|names| - 1], kept);
    }
  }

  lemma {:induction false} PrefixSplits<T>(a: seq<T>, b: seq<T>)
    requires IsPrefix(a, b)
    ensures b == a + b[|a|..]
  {
  }

  lemma {:induction false} NewKeysComeLast(on: seq<string>, rest: seq<string>, om: map<string, string>, nm: map<string, string>)
    requires (forall n :: n in om <==> n in on) && (forall n :: n in nm <==> n in on + rest)
    ensures HasNewKey(om, nm) <==> SomeNew(rest, om)
  {
    if k :| k in nm && k !in om {
      assert k in on + rest;
      var i :| 0 <= i < |rest| && rest[i] == k;
    }
    if i :| 0 <= i < |rest| && rest[i] !in om {
      assert rest[i] in on + rest;
    }
  }

  lemma {:induction false} MovedVerdict(kind: Kind, sort: Sort, where: string, on: seq<string>, nn: seq<string>,
                                        om: map<string, string>, nm: map<string, string>)
    requires (forall n :: n in om <==> n in on) && (forall n :: n in nm <==> n in nn)
    requires !IsPrefix(Survivors(on, nm.Keys), nn)
    ensures Worst(OrderedChanges(kind, sort, where, on, nn, om, nm)) == Breaking
    ensures !(IsPrefix(on, nn) && MapExtends(om, nm))
  {
    var reordered := Change(Breaking, Reordered(sort), where, Join(Survivors(on, nm.Keys)), None, None);
    WorstOfBoth(Losses(sort, where, Firsts(on), om, nm), [reordered]);
    WorstOfOne(reordered);
    if MapExtends(om, nm) {
      AllSurvive(on, nm.Keys);
    }
  }

  lemma {:induction false} DroppedVerdict(where: string, annotations: seq<string>)
    ensures Worst(Dropped(where, annotations)) == Verdict(annotations == [], false)
  {
    if annotations != [] {
      var k := |annotations| - 1;
      DroppedVerdict(where, annotations[..k]);
      WorstOfBoth(Dropped(where, annotations[..k]), [Change(Breaking, AnnotationRemoved, where, annotations[k], None, None)]);
      WorstOfOne(Change(Breaking, AnnotationRemoved, where, annotations[k], None, None));
    }
  }

  ghost predicate OnlyStability(annotations: seq<string>) {
    forall i :: 0 <= i < |annotations| ==> annotations[i] == STABILITY
  }

  lemma {:induction false} GainedVerdict(where: string, annotations: seq<string>)
    ensures Worst(Gained(where, annotations)) == Verdict(OnlyStability(annotations), annotations != [])
  {
    if annotations != [] {
      var init, a := annotations[..|annotations| - 1], annotations[|annotations| - 1];
      GainedVerdict(where, init);
      assert OnlyStability(annotations) <==> OnlyStability(init) && a == STABILITY;
      var last := Change(if a == STABILITY then Major else Breaking, AnnotationAdded, where, a, None, None);
      WorstOfBoth(Gained(where, init), [last]);
      WorstOfOne(last);
    }
  }

  lemma {:induction false} AnnotationVerdict(where: string, o: TypeDecl, n: TypeDecl)
    ensures Worst(AnnotationChanges(where, o, n)) ==
            Verdict(AnnotationsExtend(o, n), !(AnnotationSet(n) <= AnnotationSet(o)))
  {
    AnnotationSetVerdict(where, AnnotationSet(o), AnnotationSet(n));
  }

  lemma {:induction false} AnnotationSetVerdict(where: string, oa: set<string>, na: set<string>)
    ensures Worst(Dropped(where, Listing(oa - na)) + Gained(where, Listing(na - oa))) ==
            Verdict(oa <= na <= oa + {STABILITY}, !(na <= oa))
  {
    DroppedVerdict(where, Listing(oa - na));
    GainedVerdict(where, Listing(na - oa));
    WorstOfBoth(Dropped(where, Listing(oa - na)), Gained(where, Listing(na - oa)));
    ListingIsEmpty(oa - na);
    ListingIsEmpty(na - oa);
    ListingIsStability(na - oa);
    assert na <= oa <==> na - oa == {};
    assert oa <= na <==> oa - na == {};
    assert na <= oa + {STABILITY} <==> na - oa <= {STABILITY};
  }

  lemma {:induction false} ListingIsStability(s: set<string>)
    ensures OnlyStability(Listing(s)) <==> s <= {STABILITY}
  {
    var l := Listing(s);
    if OnlyStability(l) {
      forall a | a in s ensures a == STABILITY {
        assert a in l;
      }
    }
    if s <= {STABILITY} {
      forall i | 0 <= i < |l| ensures l[i] == STABILITY {
        assert l[i] in s;
      }
    }
  }

  lemma {:induction false} ListingIsEmpty(s: set<string>)
    ensures Listing(s) == [] <==> s == {}
  {
    if Listing(s) == [] {
      forall x ensures x !in s {
        assert x in Listing(s) <==> x in s;
      }
    }
  }

  lemma {:induction false} VerdictOfBoth(a: bool, b: bool, c: bool, d: bool)
    ensures Worse(Verdict(a, b), Verdict(c, d)) == Verdict(a && c, b || d)
  {
  }

  lemma {:induction false} MemberVerdict(id: Naming, where: string, o: TypeDecl, n: TypeDecl)
    ensures Worst(MemberChanges(id, where, o, n)) == Verdict(MembersExtend(id, o, n), MembersGrow(id, o, n))
  {
    if o.kind == Enum {
      NamedVerdict(id, EnumValue, where, o.members, n.members);
    } else {
      OrderedMemberVerdict(id, where, o.kind, Consts(o.members), Consts(n.members), Rest(o.members), Rest(n.members));
    }
  }

  lemma {:induction false} OrderedMemberVerdict(id: Naming, where: string, kind: Kind,
                                                oc: seq<string>, nc: seq<string>, or: seq<string>, nr: seq<string>)
    ensures Worst(NamedChanges(id, Const, where, oc, nc) + SequenceChanges(id, kind, SortOf(kind), where, or, nr)) ==
            Verdict(MapExtends(ByName(id, Enum, oc), ByName(id, Enum, nc)) && SequenceExtends(id, kind, or, nr),
                    HasNewKey(ByName(id, Enum, oc), ByName(id, Enum, nc)) || HasNewKey(ByName(id, kind, or), ByName(id, kind, nr)))
  {
    NamedVerdict(id, Const, where, oc, nc);
    SequenceVerdict(id, kind, SortOf(kind), where, or, nr);
    WorstOfBoth(NamedChanges(id, Const, where, oc, nc), SequenceChanges(id, kind, SortOf(kind), where, or, nr));
    VerdictOfBoth(MapExtends(ByName(id, Enum, oc), ByName(id, Enum, nc)), HasNewKey(ByName(id, Enum, oc), ByName(id, Enum, nc)),
                  SequenceExtends(id, kind, or, nr), HasNewKey(ByName(id, kind, or), ByName(id, kind, nr)));
  }

  lemma {:induction false} TypeVerdict(id: Naming, q: string, o: TypeDecl, n: TypeDecl)
    ensures Worst(TypeChanges(id, q, o, n)) == Verdict(TypeExtends(id, o, n), TypeGrows(id, o, n))
  {
    var where := Where(q, n);
    AnnotationVerdict(where, o, n);
    MemberVerdict(id, where, o, n);
    WorstOfBoth(AnnotationChanges(where, o, n), MemberChanges(id, where, o, n));
    WorstOfBoth(HeadChanges(q, o, n), AnnotationChanges(where, o, n) + MemberChanges(id, where, o, n));
    if HeadChanges(q, o, n) != [] {
      WorstOfOne(HeadChanges(q, o, n)[0]);
    }
  }

  lemma {:induction false} AtVerdict(id: Naming, q: string, o: Surface, n: Surface)
    requires q in o || q in n
    ensures Worst(ChangesAt(id, q, o, n)) == Verdict(KeptAt(id, q, o, n), GrowsAt(id, q, o, n))
  {
    if q in o && q in n {
      TypeVerdict(id, q, o[q], n[q]);
    } else {
      WorstOfOne(ChangesAt(id, q, o, n)[0]);
    }
  }

  ghost predicate AllKept(id: Naming, qs: seq<string>, o: Surface, n: Surface) {
    forall i :: 0 <= i < |qs| ==> KeptAt(id, qs[i], o, n)
  }

  ghost predicate SomeGrows(id: Naming, qs: seq<string>, o: Surface, n: Surface) {
    exists i :: 0 <= i < |qs| && GrowsAt(id, qs[i], o, n)
  }

  lemma {:induction false} LastOfAll(id: Naming, qs: seq<string>, o: Surface, n: Surface)
    requires qs != []
    ensures AllKept(id, qs, o, n) <==> AllKept(id, qs[..|qs| - 1], o, n) && KeptAt(id, qs[|qs| - 1], o, n)
    ensures SomeGrows(id, qs, o, n) <==> SomeGrows(id, qs[..|qs| - 1], o, n) || GrowsAt(id, qs[|qs| - 1], o, n)
  {
    var init := qs[..|qs| - 1];
    assert forall i :: 0 <= i < |init| ==> init[i] == qs[i];
  }

  lemma {:induction false} AmongVerdict(id: Naming, qs: seq<string>, o: Surface, n: Surface)
    requires forall q :: q in qs ==> q in o || q in n
    ensures Worst(ChangesAmong(id, qs, o, n)) == Verdict(AllKept(id, qs, o, n), SomeGrows(id, qs, o, n))
  {
    if qs != [] {
      var init, q := qs[..|qs| - 1], qs[|qs| - 1];
      assert q in qs;
      AmongVerdict(id, init, o, n);
      AtVerdict(id, q, o, n);
      WorstOfBoth(ChangesAmong(id, init, o, n), ChangesAt(id, q, o, n));
      LastOfAll(id, qs, o, n);
    }
  }

  /** The verdict decides the extension relation: breaking exactly when the new surface does not
      extend the old one, and otherwise major exactly when it adds something. */
  lemma {:induction false} Classification(id: Naming, o: Surface, n: Surface)
    ensures Classify(id, o, n) == Verdict(Extends(id, o, n), Grows(id, o, n))
  {
    var qs := Listing(o.Keys + n.Keys);
    assert forall q :: q in qs <==> q in o || q in n;
    AmongVerdict(id, qs, o, n);
    if AllKept(id, qs, o, n) {
      forall q ensures KeptAt(id, q, o, n) {
        if q in o {
          var i :| 0 <= i < |qs| && qs[i] == q;
        }
      }
    }
    if q :| GrowsAt(id, q, o, n) {
      var i :| 0 <= i < |qs| && qs[i] == q;
    }
  }
}
