/** The structural diff of two surfaces: which changes it reports, and how it classifies them. */
module SurfaceDiff {
  import opened Basics
  import opened SortedNames
  import opened SurfaceModel

  /** From harmless to harmful. */
  datatype Class = NoChange | Major | Breaking

  function Worse(a: Class, b: Class): Class {
    if a == Breaking || b == Breaking then Breaking else if a == Major || b == Major then Major else NoChange
  }

  /** What a member is called in reports. */
  datatype Sort = Method | Field | EnumValue | Const

  datatype ChangeKind =
    | TypeRemoved | TypeAdded | TypeChanged
    | AnnotationRemoved | AnnotationAdded
    | Removed(sort: Sort) | Changed(sort: Sort) | Added(sort: Sort) | Reordered(sort: Sort)
    | UnionArmAdded

  datatype Change = Change(severity: Class, kind: ChangeKind, where: string, symbol: string,
                           was: Option<string>, now: Option<string>)

  datatype Report = Report(verdict: Class, changes: seq<Change>)

  /** What identifies a member within its type. */
  type Naming = (Kind, string) -> string

  // ---- members by name ----------------------------------------------------

  function Names(id: Naming, kind: Kind, members: seq<string>): (r: seq<string>)
    ensures |r| == |members| && forall i :: 0 <= i < |r| ==> r[i] == id(kind, members[i])
  {
    seq(|members|, i requires 0 <= i < |members| => id(kind, members[i]))
  }

  /** The dictionary from names to members; the last member of a name wins. */
  function ByName(id: Naming, kind: Kind, members: seq<string>): map<string, string> {
    if members == [] then map[]
    else
      var k := |members| - 1;
      ByName(id, kind, members[..k])[id(kind, members[k]) := members[k]]
  }

  lemma {:induction false} ByNameKeys(id: Naming, kind: Kind, members: seq<string>)
    ensures forall n :: n in ByName(id, kind, members) <==> n in Names(id, kind, members)
  {
    if members != [] {
      var k := |members| - 1;
      ByNameKeys(id, kind, members[..k]);
      assert Names(id, kind, members) == Names(id, kind, members[..k]) + [id(kind, members[k])];
    }
  }

  function Consts(members: seq<string>): (r: seq<string>)
    ensures forall m :: m in r <==> m in members && IsConst(m)
  {
    if members == [] then []
    else
      assert members == [members[0]] + members[1..];
      (if IsConst(members[0]) then [members[0]] else []) + Consts(members[1..])
  }

  /** The members whose order is the wire format: all but constants. */
  function Rest(members: seq<string>): (r: seq<string>)
    ensures forall m :: m in r <==> m in members && !IsConst(m)
  {
    if members == [] then []
    else
      assert members == [members[0]] + members[1..];
      (if IsConst(members[0]) then [] else [members[0]]) + Rest(members[1..])
  }

  // ---- the changes of one type --------------------------------------------

  /** An old member that is gone, or no longer the same line. */
  function LossOf(sort: Sort, where: string, n: string, om: map<string, string>, nm: map<string, string>): seq<Change>
    requires n in om
  {
    if n !in nm then [Change(Breaking, Removed(sort), where, n, Some(om[n]), None)]
    else if nm[n] != om[n] then [Change(Breaking, Changed(sort), where, n, Some(om[n]), Some(nm[n]))]
    else []
  }

  function Losses(sort: Sort, where: string, names: seq<string>, om: map<string, string>, nm: map<string, string>): seq<Change>
    requires forall n :: n in names ==> n in om
  {
    if names == [] then []
    else Losses(sort, where, names[..|names| - 1], om, nm) + LossOf(sort, where, names[|names| - 1], om, nm)
  }

  /** A member that is really new; it breaks a union. */
  function GainOf(kind: Kind, sort: Sort, where: string, n: string, om: map<string, string>, nm: map<string, string>): seq<Change>
    requires n in nm
  {
    if n in om then []
    else if kind == Union then [Change(Breaking, UnionArmAdded, where, nm[n], None, None)]
    else [Change(Major, Added(sort), where, nm[n], None, None)]
  }

  function Gains(kind: Kind, sort: Sort, where: string, names: seq<string>, om: map<string, string>, nm: map<string, string>): seq<Change>
    requires forall n :: n in names ==> n in nm
  {
    if names == [] then []
    else Gains(kind, sort, where, names[..|names| - 1], om, nm) + GainOf(kind, sort, where, names[|names| - 1], om, nm)
  }

  /** Enumerators and constants match by declared name; their order is free. */
  ghost function NamedChanges(id: Naming, sort: Sort, where: string, before: seq<string>, after: seq<string>): seq<Change> {
    var om, nm := ByName(id, Enum, before), ByName(id, Enum, after);
    Losses(sort, where, Listing(om.Keys), om, nm) + Gains(Enum, sort, where, Listing(nm.Keys), om, nm)
  }

  /** The keys of a dictionary in insertion order. */
  function Firsts(names: seq<string>): (r: seq<string>)
    ensures forall n :: n in r <==> n in names
  {
    if names == [] then []
    else
      var k := |names| - 1;
      assert names == names[..k] + [names[k]];
      Firsts(names[..k]) + if names[k] in names[..k] then [] else [names[k]]
  }

  /** The old names that are still there, in their old order. */
  function Survivors(names: seq<string>, kept: set<string>): (r: seq<string>) {
    if names == [] then []
    else
      var k := |names| - 1;
      Survivors(names[..k], kept) + if names[k] in kept then [names[k]] else []
  }

  function Join(names: seq<string>): string {
    if names == [] then "" else if |names| == 1 then names[0] else names[0] + ", " + Join(names[1..])
  }

  predicate IsPrefix<T(==)>(a: seq<T>, b: seq<T>) {
    |a| <= |b| && b[..|a|] == a
  }

  /** Removing, changing or reordering breaks; appending is additive, except to a union.  Additions are
      reported only when nothing was reordered. */
  function SequenceChanges(id: Naming, kind: Kind, sort: Sort, where: string, before: seq<string>, after: seq<string>): seq<Change> {
    ByNameKeys(id, kind, before);
    ByNameKeys(id, kind, after);
    OrderedChanges(kind, sort, where, Names(id, kind, before), Names(id, kind, after), ByName(id, kind, before), ByName(id, kind, after))
  }

  function OrderedChanges(kind: Kind, sort: Sort, where: string, on: seq<string>, nn: seq<string>,
                          om: map<string, string>, nm: map<string, string>): seq<Change>
    requires (forall n :: n in om <==> n in on) && (forall n :: n in nm <==> n in nn)
  {
    var kept := Survivors(on, nm.Keys);
    Losses(sort, where, Firsts(on), om, nm) +
    if IsPrefix(kept, nn) then Gains(kind, sort, where, nn[|kept|..], om, nm)
    else [Change(Breaking, Reordered(sort), where, Join(kept), None, None)]
  }

  function Where(qname: string, t: TypeDecl): string {
    KindText(t.kind) + " " + qname
  }

  function Head(t: TypeDecl): string {
    (if t.oneway then "oneway " else "") + KindText(t.kind)
  }

  /** The one annotation that may be added. */
  const STABILITY := "@VintfStability"

  function SortOf(kind: Kind): Sort {
    if kind == Interface then Method else Field
  }

  function AnnotationSet(t: TypeDecl): set<string> {
    set a | a in t.annotations
  }

  function Dropped(where: string, annotations: seq<string>): seq<Change> {
    if annotations == [] then []
    else
      var k := |annotations| - 1;
      Dropped(where, annotations[..k]) + [Change(Breaking, AnnotationRemoved, where, annotations[k], None, None)]
  }

  function Gained(where: string, annotations: seq<string>): seq<Change> {
    if annotations == [] then []
    else
      var k := |annotations| - 1;
      var severity := if annotations[k] == STABILITY then Major else Breaking;
      Gained(where, annotations[..k]) + [Change(severity, AnnotationAdded, where, annotations[k], None, None)]
  }

  ghost function AnnotationChanges(where: string, o: TypeDecl, n: TypeDecl): seq<Change> {
    Dropped(where, Listing(AnnotationSet(o) - AnnotationSet(n))) + Gained(where, Listing(AnnotationSet(n) - AnnotationSet(o)))
  }

  ghost function MemberChanges(id: Naming, where: string, o: TypeDecl, n: TypeDecl): seq<Change> {
    if o.kind == Enum then NamedChanges(id, EnumValue, where, o.members, n.members)
    else
      NamedChanges(id, Const, where, Consts(o.members), Consts(n.members)) +
      SequenceChanges(id, o.kind, SortOf(o.kind), where, Rest(o.members), Rest(n.members))
  }

  function HeadChanges(qname: string, o: TypeDecl, n: TypeDecl): seq<Change> {
    if o.kind == n.kind && o.oneway == n.oneway then []
    else [Change(Breaking, TypeChanged, Where(qname, n), qname, Some(Head(o)), Some(Head(n)))]
  }

  /** The changes of a type that both surfaces declare. */
  ghost function TypeChanges(id: Naming, qname: string, o: TypeDecl, n: TypeDecl): seq<Change> {
    HeadChanges(qname, o, n) + (AnnotationChanges(Where(qname, n), o, n) + MemberChanges(id, Where(qname, n), o, n))
  }

  ghost function ChangesAt(id: Naming, qname: string, o: Surface, n: Surface): seq<Change> {
    if qname in o && qname in n then TypeChanges(id, qname, o[qname], n[qname])
    else if qname in o then [Change(Breaking, TypeRemoved, Where(qname, o[qname]), qname, None, None)]
    else if qname in n then [Change(Major, TypeAdded, Where(qname, n[qname]), qname, None, None)]
    else []
  }

  ghost function ChangesAmong(id: Naming, qnames: seq<string>, o: Surface, n: Surface): seq<Change> {
    if qnames == [] then []
    else ChangesAmong(id, qnames[..|qnames| - 1], o, n) + ChangesAt(id, qnames[|qnames| - 1], o, n)
  }

  /** All changes, by ascending qualified name. */
  ghost function Changes(id: Naming, o: Surface, n: Surface): seq<Change> {
    ChangesAmong(id, Listing(o.Keys + n.Keys), o, n)
  }

  function Worst(changes: seq<Change>): Class {
    if changes == [] then NoChange else Worse(Worst(changes[..|changes| - 1]), changes[|changes| - 1].severity)
  }

  ghost function Classify(id: Naming, o: Surface, n: Surface): Class {
    Worst(Changes(id, o, n))
  }

  // ---- the diff -----------------------------------------------------------

  lemma {:induction false} LossesStep(sort: Sort, where: string, names: seq<string>, i: nat, om: map<string, string>, nm: map<string, string>)
    requires i < |names| && forall n :: n in names ==> n in om
    ensures Losses(sort, where, names[..i + 1], om, nm) == Losses(sort, where, names[..i], om, nm) + LossOf(sort, where, names[i], om, nm)
  {
    assert names[..i + 1][..i] == names[..i];
  }

  lemma {:induction false} GainsStep(kind: Kind, sort: Sort, where: string, names: seq<string>, i: nat, om: map<string, string>, nm: map<string, string>)
    requires i < |names| && forall n :: n in names ==> n in nm
    ensures Gains(kind, sort, where, names[..i + 1], om, nm) ==
            Gains(kind, sort, where, names[..i], om, nm) + GainOf(kind, sort, where, names[i], om, nm)
  {
    assert names[..i + 1][..i] == names[..i];
  }

  method DiffLosses(sort: Sort, where: string, names: seq<string>, om: map<string, string>, nm: map<string, string>,
                    changes: seq<Change>) returns (r: seq<Change>)
    requires forall n :: n in names ==> n in om
    ensures r == changes + Losses(sort, where, names, om, nm)
  {
    r := changes;
    for i := 0 to |names|
      invariant r == changes + Losses(sort, where, names[..i], om, nm)
    {
      var n := names[i];
      LossesStep(sort, where, names, i, om, nm);
      var found: seq<Change> := [];
      if n !in nm {
        found := [Change(Breaking, Removed(sort), where, n, Some(om[n]), None)];
      } else if nm[n] != om[n] {
        found := [Change(Breaking, Changed(sort), where, n, Some(om[n]), Some(nm[n]))];
      }
      Regroup(changes, Losses(sort, where, names[..i], om, nm), found);
      r := r + found;
    }
    assert names[..|names|] == names;
  }

  method DiffGains(kind: Kind, sort: Sort, where: string, names: seq<string>, om: map<string, string>, nm: map<string, string>,
                   changes: seq<Change>) returns (r: seq<Change>)
    requires forall n :: n in names ==> n in nm
    ensures r == changes + Gains(kind, sort, where, names, om, nm)
  {
    r := changes;
    for i := 0 to |names|
      invariant r == changes + Gains(kind, sort, where, names[..i], om, nm)
    {
      var n := names[i];
      GainsStep(kind, sort, where, names, i, om, nm);
      var found: seq<Change> := [];
      if n !in om {
        if kind == Union {
          found := [Change(Breaking, UnionArmAdded, where, nm[n], None, None)];
        } else {
          found := [Change(Major, Added(sort), where, nm[n], None, None)];
        }
      }
      Regroup(changes, Gains(kind, sort, where, names[..i], om, nm), found);
      r := r + found;
    }
    assert names[..|names|] == names;
  }

  method DiffNamed(id: Naming, sort: Sort, where: string, before: seq<string>, after: seq<string>, changes: seq<Change>) returns (r: seq<Change>)
    ensures r == changes + NamedChanges(id, sort, where, before, after)
  {
    var om, nm := ByName(id, Enum, before), ByName(id, Enum, after);
    var names := Sorted(om.Keys);
    r := DiffLosses(sort, where, names, om, nm, changes);
    names := Sorted(nm.Keys);
    r := DiffGains(Enum, sort, where, names, om, nm, r);
    Regroup(changes, Losses(sort, where, Listing(om.Keys), om, nm), Gains(Enum, sort, where, names, om, nm));
  }

  method DiffSequence(id: Naming, kind: Kind, sort: Sort, where: string, before: seq<string>, after: seq<string>, changes: seq<Change>)
      returns (r: seq<Change>)
    ensures r == changes + SequenceChanges(id, kind, sort, where, before, after)
  {
    var on, nn := Names(id, kind, before), Names(id, kind, after);
    var om, nm := ByName(id, kind, before), ByName(id, kind, after);
    ByNameKeys(id, kind, before);
    ByNameKeys(id, kind, after);
    r := DiffLosses(sort, where, Firsts(on), om, nm, changes);
    var kept := Survivors(on, nm.Keys);
    ghost var lost := Losses(sort, where, Firsts(on), om, nm);
    if !IsPrefix(kept, nn) {
      var reordered := [Change(Breaking, Reordered(sort), where, Join(kept), None, None)];
      r := r + reordered;
      Regroup(changes, lost, reordered);
      return;
    }
    r := DiffGains(kind, sort, where, nn[|kept|..], om, nm, r);
    Regroup(changes, lost, Gains(kind, sort, where, nn[|kept|..], om, nm));
  }

  method DiffDropped(where: string, removed: seq<string>, changes: seq<Change>) returns (r: seq<Change>)
    ensures r == changes + Dropped(where, removed)
  {
    r := changes;
    for i := 0 to |removed|
      invariant r == changes + Dropped(where, removed[..i])
    {
      assert removed[..i + 1][..i] == removed[..i];
      r := r + [Change(Breaking, AnnotationRemoved, where, removed[i], None, None)];
    }
    assert removed[..|removed|] == removed;
  }

  method DiffGained(where: string, added: seq<string>, changes: seq<Change>) returns (r: seq<Change>)
    ensures r == changes + Gained(where, added)
  {
    r := changes;
    for i := 0 to |added|
      invariant r == changes + Gained(where, added[..i])
    {
      assert added[..i + 1][..i] == added[..i];
      var severity := if added[i] == STABILITY then Major else Breaking;
      r := r + [Change(severity, AnnotationAdded, where, added[i], None, None)];
    }
    assert added[..|added|] == added;
  }

  method DiffAnnotations(where: string, o: TypeDecl, n: TypeDecl, changes: seq<Change>) returns (r: seq<Change>)
    ensures r == changes + AnnotationChanges(where, o, n)
  {
    var removed := Sorted(AnnotationSet(o) - AnnotationSet(n));
    r := DiffDropped(where, removed, changes);
    var added := Sorted(AnnotationSet(n) - AnnotationSet(o));
    r := DiffGained(where, added, r);
    Regroup(changes, Dropped(where, removed), Gained(where, added));
  }

  method DiffMembers(id: Naming, where: string, o: TypeDecl, n: TypeDecl, changes: seq<Change>) returns (r: seq<Change>)
    ensures r == changes + MemberChanges(id, where, o, n)
  {
    if o.kind == Enum {
      r := DiffNamed(id, EnumValue, where, o.members, n.members, changes);
    } else {
      r := DiffNamed(id, Const, where, Consts(o.members), Consts(n.members), changes);
      r := DiffSequence(id, o.kind, SortOf(o.kind), where, Rest(o.members), Rest(n.members), r);
      Regroup(changes, NamedChanges(id, Const, where, Consts(o.members), Consts(n.members)),
              SequenceChanges(id, o.kind, SortOf(o.kind), where, Rest(o.members), Rest(n.members)));
    }
  }

  method DiffType(id: Naming, qname: string, o: TypeDecl, n: TypeDecl, changes: seq<Change>) returns (r: seq<Change>)
    ensures r == changes + TypeChanges(id, qname, o, n)
  {
    var where := Where(qname, n);
    r := changes;
    if o.kind != n.kind || o.oneway != n.oneway {
      r := r + [Change(Breaking, TypeChanged, where, qname, Some(Head(o)), Some(Head(n)))];
    }
    assert r == changes + HeadChanges(qname, o, n);
    ghost var start := r;
    r := DiffAnnotations(where, o, n, r);
    r := DiffMembers(id, where, o, n, r);
    Regroup(start, AnnotationChanges(where, o, n), MemberChanges(id, where, o, n));
    Regroup(changes, HeadChanges(qname, o, n), AnnotationChanges(where, o, n) + MemberChanges(id, where, o, n));
  }

  method DiffAt(id: Naming, q: string, o: Surface, n: Surface, changes: seq<Change>) returns (r: seq<Change>)
    requires q in o || q in n
    ensures r == changes + ChangesAt(id, q, o, n)
  {
    if q !in n {
      r := changes + [Change(Breaking, TypeRemoved, Where(q, o[q]), q, None, None)];
    } else if q !in o {
      r := changes + [Change(Major, TypeAdded, Where(q, n[q]), q, None, None)];
    } else {
      r := DiffType(id, q, o[q], n[q], changes);
    }
  }

  method DiffAmong(id: Naming, qnames: seq<string>, o: Surface, n: Surface) returns (changes: seq<Change>)
    requires forall q :: q in qnames ==> q in o || q in n
    ensures changes == ChangesAmong(id, qnames, o, n)
  {
    changes := [];
    for i := 0 to |qnames|
      invariant changes == ChangesAmong(id, qnames[..i], o, n)
    {
      assert qnames[i] in qnames;
      assert qnames[..i + 1][..i] == qnames[..i];
      changes := DiffAt(id, qnames[i], o, n, changes);
    }
    assert qnames[..|qnames|] == qnames;
  }

  /** The whole report: every change in order, and the worst severity as the verdict. */
  method DiffSurface(id: Naming, o: Surface, n: Surface) returns (report: Report)
    ensures report == Report(Classify(id, o, n), Changes(id, o, n))
  {
    var qnames := Sorted(o.Keys + n.Keys);
    var changes := DiffAmong(id, qnames, o, n);
    report := Report(Worst(changes), changes);
  }
}
