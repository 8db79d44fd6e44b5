/** What an edit of an enum means for clients: only the name-to-integer table counts. */
module EnumVerdict {
  import opened Basics
  import opened SurfaceModel
  import MemberNames
  import opened MemberEdits
  import opened EnumBody
  import opened SurfaceDiff
  import opened DiffLaws
  import opened DiffAlgebra

  // ---- tables -------------------------------------------------------------

  /** Literal or implicit values only, under identifiers. */
  ghost predicate Plain(es: seq<Enumerator>) {
    forall i :: 0 <= i < |es| ==> !es[i].Symbolic? && IsIdentifier(es[i].name)
  }

  lemma {:induction false} PlainHasValue(es: seq<Enumerator>, i: nat)
    requires Plain(es) && i < |es|
    ensures Backing(es, Some(-1), i).Some?
  {
    if i > 0 {
      PlainHasValue(es, i - 1);
    }
  }

  /** The integer of every name. */
  ghost function Table(es: seq<Enumerator>, n: nat): map<string, int>
    requires Plain(es) && n <= |es|
  {
    if n == 0 then map[]
    else
      PlainHasValue(es, n - 1);
      Table(es, n - 1)[es[n - 1].name := Backing(es, Some(-1), n - 1).value]
  }

  ghost function Ints(es: seq<Enumerator>): map<string, int>
    requires Plain(es)
  {
    Table(es, |es|)
  }

  /** `lines` holds exactly the lines of `table`. */
  ghost predicate Renders(lines: map<string, string>, table: map<string, int>) {
    lines.Keys == table.Keys && forall k :: k in table ==> lines[k] == ValueLine(k, table[k])
  }

  lemma {:induction false} RendersStep(lines: map<string, string>, table: map<string, int>, k: string, v: int)
    requires Renders(lines, table)
    ensures Renders(lines[k := ValueLine(k, v)], table[k := v])
  {
  }

  lemma {:induction false} ValueLineIsNamed(name: string, v: int)
    requires IsIdentifier(name)
    ensures MemberName(Enum, ValueLine(name, v)) == name
  {
    MemberNames.ValueLine(Enum, "", name, IntText(v));
    assert "" + name == name;
  }

  lemma {:induction false} LineIs(es: seq<Enumerator>, k: nat)
    requires k < |es| && Backing(es, Some(-1), k).Some?
    ensures Lines(es, Some(-1))[k] == ValueLine(es[k].name, Backing(es, Some(-1), k).value)
  {
    LineAt(es, Some(-1), k);
  }

  lemma {:induction false} ByNameOfLonger(lines: seq<string>, n: nat, name: string, line: string)
    requires 0 < n <= |lines| && lines[n - 1] == line && MemberName(Enum, line) == name
    ensures ByName(MemberName, Enum, lines[..n]) == ByName(MemberName, Enum, lines[..n - 1])[name := line]
  {
    assert lines[..n][..n - 1] == lines[..n - 1];
  }

  lemma {:induction false} LastLineByName(es: seq<Enumerator>, n: nat)
    requires Plain(es) && 0 < n <= |es| && Backing(es, Some(-1), n - 1).Some?
    ensures var lines, name := Lines(es, Some(-1)), es[n - 1].name;
      ByName(MemberName, Enum, lines[..n]) == ByName(MemberName, Enum, lines[..n - 1])[name := ValueLine(name, Backing(es, Some(-1), n - 1).value)]
  {
    var v := Backing(es, Some(-1), n - 1).value;
    LineIs(es, n - 1);
    ValueLineIsNamed(es[n - 1].name, v);
    ByNameOfLonger(Lines(es, Some(-1)), n, es[n - 1].name, ValueLine(es[n - 1].name, v));
  }

  lemma {:induction false} TableStep(es: seq<Enumerator>, n: nat)
    requires Plain(es) && 0 < n <= |es|
    ensures Backing(es, Some(-1), n - 1).Some?
    ensures Table(es, n) == Table(es, n - 1)[es[n - 1].name := Backing(es, Some(-1), n - 1).value]
  {
    PlainHasValue(es, n - 1);
  }

  lemma {:induction false} LinesRender(es: seq<Enumerator>, n: nat)
    requires Plain(es) && n <= |es|
    ensures Renders(ByName(MemberName, Enum, Lines(es, Some(-1))[..n]), Table(es, n))
  {
    if n > 0 {
      LinesRender(es, n - 1);
      TableStep(es, n);
      LastLineByName(es, n);
      LastRenders(ByName(MemberName, Enum, Lines(es, Some(-1))[..n - 1]), ByName(MemberName, Enum, Lines(es, Some(-1))[..n]),
                  Table(es, n - 1), Table(es, n), es[n - 1].name, Backing(es, Some(-1), n - 1).value);
    }
  }

  lemma {:induction false} LastRenders(before: map<string, string>, lines: map<string, string>, older: map<string, int>, table: map<string, int>, k: string, v: int)
    requires Renders(before, older) && lines == before[k := ValueLine(k, v)] && table == older[k := v]
    ensures Renders(lines, table)
  {
    RendersStep(before, older, k, v);
  }

  lemma {:induction false} SameLineSameInt(k: string, a: int, b: int)
    requires ValueLine(k, a) == ValueLine(k, b)
    ensures a == b
  {
    var n := |k| + 3;
    assert ValueLine(k, a)[n..] == IntText(a) && ValueLine(k, b)[n..] == IntText(b);
    IntRoundTrip(a);
    IntRoundTrip(b);
  }

  ghost predicate TableExtends(o: map<string, int>, n: map<string, int>) {
    forall k :: k in o ==> k in n && n[k] == o[k]
  }

  lemma {:induction false} RenderedExtends(ol: map<string, string>, o: map<string, int>, nl: map<string, string>, n: map<string, int>)
    requires Renders(ol, o) && Renders(nl, n)
    ensures MapExtends(ol, nl) <==> TableExtends(o, n)
    ensures HasNewKey(ol, nl) <==> !(n.Keys <= o.Keys)
  {
    if MapExtends(ol, nl) {
      forall k | k in o ensures k in n && n[k] == o[k] {
        assert k in ol;
        SameLineSameInt(k, o[k], n[k]);
      }
    }
    if TableExtends(o, n) {
      forall k | k in ol ensures k in nl && nl[k] == ol[k] {
        assert k in o;
      }
    }
    if !(n.Keys <= o.Keys) {
      var k :| k in n.Keys && k !in o.Keys;
      assert k in nl && k !in ol;
    }
  }

  lemma {:induction false} TablesRender(es: seq<Enumerator>)
    requires Plain(es)
    ensures Renders(ByName(MemberName, Enum, Lines(es, Some(-1))), Ints(es))
  {
    LinesRender(es, |es|);
    var lines := Lines(es, Some(-1));
    assert lines[..|es|] == lines;
  }

  // ---- the verdict --------------------------------------------------------

  lemma {:induction false} EditedExtends(id: Naming, s: Surface, q: string, members: seq<string>)
    requires q in s && s[q].kind == Enum
    ensures var om, nm := ByName(id, Enum, s[q].members), ByName(id, Enum, members);
      && (Extends(id, s, Edited(s, q, members)) <==> MapExtends(om, nm))
      && (Grows(id, s, Edited(s, q, members)) <==> HasNewKey(om, nm))
  {
    EditIsLocal(id, s, q, members);
  }

  /** An edit of an enum is classified by its integers alone, whatever the order: it breaks unless every
      old name keeps its integer, and it is additive when there are new names. */
  lemma {:induction false} EnumEditVerdict(s: Surface, q: string, es: seq<Enumerator>, fs: seq<Enumerator>)
    requires q in s && s[q].kind == Enum && s[q].members == Lines(es, Some(-1)) && Plain(es) && Plain(fs)
    ensures Classify(MemberName, s, Edited(s, q, Lines(fs, Some(-1)))) ==
            Verdict(TableExtends(Ints(es), Ints(fs)), !(Ints(fs).Keys <= Ints(es).Keys))
  {
    var members := Lines(fs, Some(-1));
    Classification(MemberName, s, Edited(s, q, members));
    EditedExtends(MemberName, s, q, members);
    TablesRender(es);
    TablesRender(fs);
    RenderedExtends(ByName(MemberName, Enum, s[q].members), Ints(es), ByName(MemberName, Enum, members), Ints(fs));
  }

  /** A reordering passes unnoticed exactly when every name keeps its integer. */
  lemma {:induction false} ReorderingVerdict(s: Surface, q: string, es: seq<Enumerator>, fs: seq<Enumerator>)
    requires q in s && s[q].kind == Enum && s[q].members == Lines(es, Some(-1)) && Plain(es) && Plain(fs)
    ensures Classify(MemberName, s, Edited(s, q, Lines(fs, Some(-1)))) == NoChange <==> Ints(es) == Ints(fs)
  {
    EnumEditVerdict(s, q, es, fs);
    if TableExtends(Ints(es), Ints(fs)) && Ints(fs).Keys <= Ints(es).Keys {
      assert Ints(es).Keys == Ints(fs).Keys;
    }
  }
}
