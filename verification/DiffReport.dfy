/** Which changes a report lists: each loss and each gain, and nothing else. */
module DiffReport {
  import opened Basics
  import opened SortedNames
  import opened SurfaceModel
  import opened SurfaceDiff
  import opened DiffLaws

  function RemovedAs(sort: Sort, where: string, k: string, x: string): Change {
    Change(Breaking, Removed(sort), where, k, Some(x), None)
  }

  function ChangedAs(sort: Sort, where: string, k: string, x: string, y: string): Change {
    Change(Breaking, Changed(sort), where, k, Some(x), Some(y))
  }

  function AddedAs(kind: Kind, sort: Sort, where: string, x: string): Change {
    if kind == Union then Change(Breaking, UnionArmAdded, where, x, None, None) else Change(Major, Added(sort), where, x, None, None)
  }

  // ---- losses and gains ---------------------------------------------------

  lemma {:induction false} LossesListed(sort: Sort, where: string, names: seq<string>, om: map<string, string>, nm: map<string, string>, c: Change)
    requires forall n :: n in names ==> n in om
    ensures c in Losses(sort, where, names, om, nm) <==> c.symbol in names && c in LossOf(sort, where, c.symbol, om, nm)
  {
    if names != [] {
      var init, last := names[..|names| - 1], names[|names| - 1];
      assert names == init + [last];
      LossesListed(sort, where, init, om, nm, c);
    }
  }

  /** A name that is new brings the line `x`. */
  ghost predicate BringsLine(names: seq<string>, om: map<string, string>, nm: map<string, string>, x: string) {
    exists i :: 0 <= i < |names| && names[i] in nm && names[i] !in om && nm[names[i]] == x
  }

  lemma {:induction false} LastBrings(names: seq<string>, om: map<string, string>, nm: map<string, string>, x: string)
    requires names != []
    ensures var last := names[|names| - 1];
      BringsLine(names, om, nm, x) <==> BringsLine(names[..|names| - 1], om, nm, x) || (last in nm && last !in om && nm[last] == x)
  {
    var init := names[..|names| - 1];
    if BringsLine(init, om, nm, x) {
      var i :| 0 <= i < |init| && init[i] in nm && init[i] !in om && nm[init[i]] == x;
      assert names[i] == init[i];
    }
    if i :| 0 <= i < |names| && names[i] in nm && names[i] !in om && nm[names[i]] == x {
      assert i < |init| ==> init[i] == names[i];
    }
  }

  lemma {:induction false} GainsListed(kind: Kind, sort: Sort, where: string, names: seq<string>, om: map<string, string>, nm: map<string, string>, x: string)
    requires forall n :: n in names ==> n in nm
    ensures AddedAs(kind, sort, where, x) in Gains(kind, sort, where, names, om, nm) <==> BringsLine(names, om, nm, x)
  {
    if names != [] {
      var init, last := names[..|names| - 1], names[|names| - 1];
      assert names == init + [last];
      GainsListed(kind, sort, where, init, om, nm, x);
      LastBrings(names, om, nm, x);
    }
  }

  /** Losses come with an old line, gains without. */
  lemma {:induction false} LossesHaveOld(sort: Sort, where: string, names: seq<string>, om: map<string, string>, nm: map<string, string>, c: Change)
    requires (forall n :: n in names ==> n in om) && c in Losses(sort, where, names, om, nm)
    ensures c.was.Some?
  {
    LossesListed(sort, where, names, om, nm, c);
  }

  lemma {:induction false} GainsHaveNoOld(kind: Kind, sort: Sort, where: string, names: seq<string>, om: map<string, string>, nm: map<string, string>, c: Change)
    requires (forall n :: n in names ==> n in nm) && c in Gains(kind, sort, where, names, om, nm)
    ensures c.was.None? && c.kind != Reordered(sort)
  {
    var init, last := names[..|names| - 1], names[|names| - 1];
    assert names == init + [last];
    if c in Gains(kind, sort, where, init, om, nm) {
      GainsHaveNoOld(kind, sort, where, init, om, nm, c);
    }
  }

  /** Some new name brings the line `x`. */
  ghost predicate IsNewLine(om: map<string, string>, nm: map<string, string>, x: string) {
    exists n :: n in nm && n !in om && nm[n] == x
  }

  lemma {:induction false} BringsNewLine(names: seq<string>, om: map<string, string>, nm: map<string, string>, x: string)
    requires forall n :: n in nm && n !in om ==> n in names
    ensures BringsLine(names, om, nm, x) <==> IsNewLine(om, nm, x)
  {
    if n :| n in nm && n !in om && nm[n] == x {
      var i :| 0 <= i < |names| && names[i] == n;
    }
  }

  // ---- members matched by name --------------------------------------------

  /** Enumerators and constants: removed iff gone, changed iff the line differs, added iff new. */
  lemma {:induction false} NamedReport(id: Naming, sort: Sort, where: string, before: seq<string>, after: seq<string>, k: string, x: string, y: string)
    ensures var om, nm := ByName(id, Enum, before), ByName(id, Enum, after);
      var report := NamedChanges(id, sort, where, before, after);
      && (RemovedAs(sort, where, k, x) in report <==> k in om && om[k] == x && k !in nm)
      && (ChangedAs(sort, where, k, x, y) in report <==> k in om && k in nm && om[k] == x && nm[k] == y && x != y)
      && (AddedAs(Enum, sort, where, x) in report <==> IsNewLine(om, nm, x))
  {
    var om, nm := ByName(id, Enum, before), ByName(id, Enum, after);
    ReportOfBoth(Enum, sort, where, Listing(om.Keys), Listing(nm.Keys), om, nm, k, x, y);
  }

  lemma {:induction false} ReportOfBoth(kind: Kind, sort: Sort, where: string, lost: seq<string>, won: seq<string>,
                                        om: map<string, string>, nm: map<string, string>, k: string, x: string, y: string)
    requires (forall n :: n in lost <==> n in om) && (forall n :: n in won ==> n in nm) && forall n :: n in nm && n !in om ==> n in won
    ensures var report := Losses(sort, where, lost, om, nm) + Gains(kind, sort, where, won, om, nm);
      && (RemovedAs(sort, where, k, x) in report <==> k in om && om[k] == x && k !in nm)
      && (ChangedAs(sort, where, k, x, y) in report <==> k in om && k in nm && om[k] == x && nm[k] == y && x != y)
      && (AddedAs(kind, sort, where, x) in report <==> IsNewLine(om, nm, x))
  {
    var losses, gains := Losses(sort, where, lost, om, nm), Gains(kind, sort, where, won, om, nm);
    LossesListed(sort, where, lost, om, nm, RemovedAs(sort, where, k, x));
    LossesListed(sort, where, lost, om, nm, ChangedAs(sort, where, k, x, y));
    GainsListed(kind, sort, where, won, om, nm, x);
    BringsNewLine(won, om, nm, x);
    if RemovedAs(sort, where, k, x) in gains {
      GainsHaveNoOld(kind, sort, where, won, om, nm, RemovedAs(sort, where, k, x));
    }
    if ChangedAs(sort, where, k, x, y) in gains {
      GainsHaveNoOld(kind, sort, where, won, om, nm, ChangedAs(sort, where, k, x, y));
    }
    if AddedAs(kind, sort, where, x) in losses {
      LossesHaveOld(sort, where, lost, om, nm, AddedAs(kind, sort, where, x));
    }
  }

  // ---- ordered members ----------------------------------------------------

  lemma {:induction false} SurvivorsAreOld(names: seq<string>, kept: set<string>, n: string)
    requires n in Survivors(names, kept)
    ensures n in names
  {
    var k := |names| - 1;
    assert names == names[..k] + [names[k]];
    if n in Survivors(names[..k], kept) {
      SurvivorsAreOld(names[..k], kept, n);
    }
  }

  /** A new name stands after the survivors. */
  lemma {:induction false} NewNamesComeLater(on: seq<string>, nn: seq<string>, kept: seq<string>, keys: set<string>)
    requires kept == Survivors(on, keys) && IsPrefix(kept, nn)
    ensures forall n :: n in nn && n !in on ==> n in nn[|kept|..]
  {
    forall n | n in nn && n !in on ensures n in nn[|kept|..] {
      PrefixSplits(kept, nn);
      if n in kept {
        SurvivorsAreOld(on, keys, n);
      }
    }
  }

  lemma {:induction false} FirstsAll(names: seq<string>, om: map<string, string>)
    requires forall n :: n in om <==> n in names
    ensures forall n :: n in Firsts(names) <==> n in om
  {
  }

  /** Fields and methods whose survivors keep their order: removed iff gone, changed iff the line differs,
      added iff new, and no reordering is reported. */
  lemma {:induction false} OrderedReport(id: Naming, kind: Kind, sort: Sort, where: string, before: seq<string>, after: seq<string>,
                                         k: string, x: string, y: string)
    requires IsPrefix(Survivors(Names(id, kind, before), ByName(id, kind, after).Keys), Names(id, kind, after))
    ensures var om, nm := ByName(id, kind, before), ByName(id, kind, after);
      var report := SequenceChanges(id, kind, sort, where, before, after);
      && (RemovedAs(sort, where, k, x) in report <==> k in om && om[k] == x && k !in nm)
      && (ChangedAs(sort, where, k, x, y) in report <==> k in om && k in nm && om[k] == x && nm[k] == y && x != y)
      && (AddedAs(kind, sort, where, x) in report <==> IsNewLine(om, nm, x))
  {
    var on, nn := Names(id, kind, before), Names(id, kind, after);
    var om, nm := ByName(id, kind, before), ByName(id, kind, after);
    var kept := Survivors(on, nm.Keys);
    ByNameKeys(id, kind, before);
    ByNameKeys(id, kind, after);
    NewNamesComeLater(on, nn, kept, nm.Keys);
    FirstsAll(on, om);
    ReportOfBoth(kind, sort, where, Firsts(on), nn[|kept|..], om, nm, k, x, y);
  }

  /** Otherwise the reordering is reported, with the survivors in their old order, and no addition. */
  lemma {:induction false} ReorderedReport(id: Naming, kind: Kind, sort: Sort, where: string, before: seq<string>, after: seq<string>,
                                           k: string, x: string, y: string)
    requires !IsPrefix(Survivors(Names(id, kind, before), ByName(id, kind, after).Keys), Names(id, kind, after))
    ensures var om, nm := ByName(id, kind, before), ByName(id, kind, after);
      var report := SequenceChanges(id, kind, sort, where, before, after);
      && (RemovedAs(sort, where, k, x) in report <==> k in om && om[k] == x && k !in nm)
      && (ChangedAs(sort, where, k, x, y) in report <==> k in om && k in nm && om[k] == x && nm[k] == y && x != y)
      && AddedAs(kind, sort, where, x) !in report
      && Change(Breaking, Reordered(sort), where, Join(Survivors(Names(id, kind, before), nm.Keys)), None, None) in report
  {
    var on := Names(id, kind, before);
    var om, nm := ByName(id, kind, before), ByName(id, kind, after);
    ByNameKeys(id, kind, before);
    ByNameKeys(id, kind, after);
    FirstsAll(on, om);
    ReportOfLosses(kind, sort, where, Firsts(on), om, nm, Join(Survivors(on, nm.Keys)), k, x, y);
  }

  lemma {:induction false} ReportOfLosses(kind: Kind, sort: Sort, where: string, lost: seq<string>, om: map<string, string>, nm: map<string, string>,
                                          names: string, k: string, x: string, y: string)
    requires forall n :: n in lost <==> n in om
    ensures var moved := Change(Breaking, Reordered(sort), where, names, None, None);
      var report := Losses(sort, where, lost, om, nm) + [moved];
      && (RemovedAs(sort, where, k, x) in report <==> k in om && om[k] == x && k !in nm)
      && (ChangedAs(sort, where, k, x, y) in report <==> k in om && k in nm && om[k] == x && nm[k] == y && x != y)
      && AddedAs(kind, sort, where, x) !in report && moved in report
  {
    LossesListed(sort, where, lost, om, nm, RemovedAs(sort, where, k, x));
    LossesListed(sort, where, lost, om, nm, ChangedAs(sort, where, k, x, y));
    if AddedAs(kind, sort, where, x) in Losses(sort, where, lost, om, nm) {
      LossesHaveOld(sort, where, lost, om, nm, AddedAs(kind, sort, where, x));
    }
  }

  // ---- the order of a report ----------------------------------------------

  /** Old names are gone through once each, in the order in which they first occur. */
  lemma {:induction false} FirstsInOrder(names: seq<string>, i: nat, j: nat, q: nat) returns (p: nat)
    requires i < j < |Firsts(names)| && q < |names| && names[q] == Firsts(names)[j]
    ensures p < q && names[p] == Firsts(names)[i]
  {
    var k := |names| - 1;
    var init := names[..k];
    var d := Firsts(init);
    if j < |d| {
      if q < k {
        p := FirstsInOrder(init, i, j, q);
      } else {
        assert d[i] in init;
        p :| 0 <= p < |init| && init[p] == d[i];
      }
    } else {
      assert names[k] !in init;
      assert d[i] in init;
      p :| 0 <= p < |init| && init[p] == d[i];
    }
  }

  /** Losses follow the names they are about, so that none is reported twice. */
  lemma {:induction false} LossesFollowNames(sort: Sort, where: string, names: seq<string>, om: map<string, string>, nm: map<string, string>,
                                             p: nat, q: nat) returns (i: nat, j: nat)
    requires (forall n :: n in names ==> n in om) && p < q < |Losses(sort, where, names, om, nm)|
    ensures i < j < |names|
    ensures names[i] == Losses(sort, where, names, om, nm)[p].symbol && names[j] == Losses(sort, where, names, om, nm)[q].symbol
  {
    var k := |names| - 1;
    var init, last := names[..k], names[k];
    var l := Losses(sort, where, init, om, nm);
    assert Losses(sort, where, names, om, nm) == l + LossOf(sort, where, last, om, nm);
    if q < |l| {
      i, j := LossesFollowNames(sort, where, init, om, nm, p, q);
    } else {
      LossesListed(sort, where, init, om, nm, l[p]);
      assert l[p].symbol in init;
      i :| 0 <= i < |init| && init[i] == l[p].symbol;
      j := k;
    }
  }

  /** Surviving names are listed with a comma and a space between them. */
  lemma {:induction false} JoinGrows(names: seq<string>, x: string)
    ensures Join([x]) == x
    ensures names != [] ==> Join(names + [x]) == Join(names) + (", " + x)
  {
    if names != [] {
      assert (names + [x])[1..] == names[1..] + [x];
      if |names| > 1 {
        JoinGrows(names[1..], x);
        Regroup(names[0] + ", ", Join(names[1..]), ", " + x);
      } else {
        assert (names + [x])[1..] == [x] && Join([x]) == x;
        Regroup(names[0], ", ", x);
      }
    }
  }

  // ---- who has moved ------------------------------------------------------

  /** How many of the first `k` old names survive. */
  ghost function SurvivingBefore(names: seq<string>, kept: set<string>, k: nat): nat
    requires k <= |names|
  {
    |set i | 0 <= i < k && names[i] in kept|
  }

  lemma {:induction false} SurvivingStep(names: seq<string>, kept: set<string>, k: nat)
    requires k < |names|
    ensures SurvivingBefore(names, kept, k + 1) == SurvivingBefore(names, kept, k) + if names[k] in kept then 1 else 0
  {
    var a, b := set i | 0 <= i < k && names[i] in kept, set i | 0 <= i < k + 1 && names[i] in kept;
    assert b == if names[k] in kept then a + {k} else a;
  }

  lemma {:induction false} SurvivingOfPart(names: seq<string>, kept: set<string>, m: nat, k: nat)
    requires k <= m <= |names|
    ensures SurvivingBefore(names[..m], kept, k) == SurvivingBefore(names, kept, k)
  {
    assert (set i | 0 <= i < k && names[..m][i] in kept) == (set i | 0 <= i < k && names[i] in kept);
  }

  lemma {:induction false} SurvivingRises(names: seq<string>, kept: set<string>, k: nat, m: nat)
    requires k <= m <= |names|
    ensures SurvivingBefore(names, kept, k) <= SurvivingBefore(names, kept, m)
    decreases m - k
  {
    if k < m {
      SurvivingStep(names, kept, m - 1);
      SurvivingRises(names, kept, k, m - 1);
    }
  }

  lemma {:induction false} SurvivorCount(names: seq<string>, kept: set<string>)
    ensures |Survivors(names, kept)| == SurvivingBefore(names, kept, |names|)
  {
    if names != [] {
      var k := |names| - 1;
      SurvivorCount(names[..k], kept);
      SurvivingOfPart(names, kept, k, k);
      SurvivingStep(names, kept, k);
    }
  }

  /** A surviving name stands among the survivors behind those that stood before it. */
  lemma {:induction false} SurvivorPlace(names: seq<string>, kept: set<string>, i: nat)
    requires i < |names| && names[i] in kept
    ensures SurvivingBefore(names, kept, i) < |Survivors(names, kept)|
    ensures Survivors(names, kept)[SurvivingBefore(names, kept, i)] == names[i]
  {
    var k := |names| - 1;
    SurvivorCount(names[..k], kept);
    SurvivingOfPart(names, kept, k, k);
    if i < k {
      SurvivingOfPart(names, kept, k, i);
      SurvivorPlace(names[..k], kept, i);
    }
  }

  lemma {:induction false} SurvivorAt(names: seq<string>, kept: set<string>, p: nat) returns (i: nat)
    requires p < |Survivors(names, kept)|
    ensures i < |names| && names[i] in kept && SurvivingBefore(names, kept, i) == p
  {
    var k := |names| - 1;
    SurvivorCount(names[..k], kept);
    SurvivingOfPart(names, kept, k, k);
    if p < |Survivors(names[..k], kept)| {
      i := SurvivorAt(names[..k], kept, p);
      SurvivingOfPart(names, kept, k, i);
    } else {
      i := k;
    }
  }

  /** Some surviving name does not stand where the survivors before it leave it. */
  ghost predicate OutOfPlace(on: seq<string>, nn: seq<string>, kept: set<string>) {
    exists i :: 0 <= i < |on| && on[i] in kept && !StandsAt(nn, SurvivingBefore(on, kept, i), on[i])
  }

  predicate StandsAt(nn: seq<string>, p: nat, n: string) {
    p < |nn| && nn[p] == n
  }

  /** Survivors come first and in their old order exactly when none is out of place. */
  lemma {:induction false} MovedIsOutOfPlace(on: seq<string>, nn: seq<string>, kept: set<string>)
    ensures !IsPrefix(Survivors(on, kept), nn) <==> OutOfPlace(on, nn, kept)
  {
    var s := Survivors(on, kept);
    if IsPrefix(s, nn) {
      forall i | 0 <= i < |on| && on[i] in kept ensures StandsAt(nn, SurvivingBefore(on, kept, i), on[i]) {
        SurvivorPlace(on, kept, i);
        var p := SurvivingBefore(on, kept, i);
        assert nn[..|s|][p] == s[p];
      }
    } else {
      if |s| > |nn| {
        var i := SurvivorAt(on, kept, |nn|);
        assert !StandsAt(nn, SurvivingBefore(on, kept, i), on[i]);
      } else {
        var p :| 0 <= p < |s| && nn[p] != s[p];
        var i := SurvivorAt(on, kept, p);
        SurvivorPlace(on, kept, i);
        assert !StandsAt(nn, SurvivingBefore(on, kept, i), on[i]);
      }
    }
  }
}
