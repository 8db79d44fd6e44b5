/** The canonical text dump of a surface, and its reader. */
module SurfaceDump {
  import opened Basics
  import Sorting
  import opened SortedNames
  import opened SurfaceModel
  import opened Headers

  // ---- sorted annotations -------------------------------------------------

  function SortAll(s: seq<string>): seq<string> {
    Sorting.Sort(Less, s)
  }

  predicate Ordered(s: seq<string>) {
    Sorting.InOrder(Less, s)
  }

  // ---- lines --------------------------------------------------------------

  function LineLength(s: string): (n: nat)
    ensures n <= |s|
  {
    if s == "" || IsBreak(s[0]) then 0 else 1 + LineLength(s[1..])
  }

  function SplitLines(s: string): seq<string>
    decreases |s|
  {
    if s == "" then []
    else
      var n := LineLength(s);
      if n == |s| then [s]
      else if s[n] == '\r' && n + 1 < |s| && s[n + 1] == '\n' then [s[..n]] + SplitLines(s[n + 2..])
      else [s[..n]] + SplitLines(s[n + 1..])
  }

  function JoinLines(lines: seq<string>): string {
    if lines == [] then "" else if |lines| == 1 then lines[0] else lines[0] + ("\n" + JoinLines(lines[1..]))
  }

  lemma {:induction false} LineLengthOf(line: string, rest: string)
    requires OneLine(line) && (rest == "" || IsBreak(rest[0]))
    ensures LineLength(line + rest) == |line|
  {
    if line == "" {
      assert line + rest == rest;
    } else {
      assert (line + rest)[1..] == line[1..] + rest;
      LineLengthOf(line[1..], rest);
    }
  }

  lemma SplitFirst(line: string, rest: string)
    requires OneLine(line)
    ensures SplitLines(line + ("\n" + rest)) == [line] + SplitLines(rest)
  {
    var s := line + ("\n" + rest);
    LineLengthOf(line, "\n" + rest);
    assert s[..|line|] == line && s[|line| + 1..] == rest && s[|line|] == '\n';
  }

  /** Splitting undoes joining, but for a last line that is empty. */
  lemma {:induction false} SplitUndoesJoin(lines: seq<string>)
    requires forall i :: 0 <= i < |lines| ==> OneLine(lines[i])
    ensures SplitLines(JoinLines(lines + [""])) == lines
  {
    if lines == [] {
      assert lines + [""] == [""];
    } else {
      var rest := lines[1..] + [""];
      assert (lines + [""])[1..] == rest;
      SplitFirst(lines[0], JoinLines(rest));
      SplitUndoesJoin(lines[1..]);
      assert lines == [lines[0]] + lines[1..];
    }
  }

  // ---- printing -----------------------------------------------------------

  const INDENT := "    "

  function MemberLines(members: seq<string>): (r: seq<string>)
    ensures |r| == |members|
  {
    if members == [] then [] else [INDENT + members[0]] + MemberLines(members[1..])
  }

  function HeaderOf(q: string, t: TypeDecl): Header {
    Header(t.annotations, t.oneway, t.kind, q)
  }

  function TypeLines(q: string, t: TypeDecl): seq<string> {
    [HeaderText(HeaderOf(q, t))] + (MemberLines(t.members) + [""])
  }

  /** The lines of the types called `qs`, in that order. */
  function DumpLines(qs: seq<string>, s: Surface): seq<string>
    requires forall q :: q in qs ==> q in s
  {
    if qs == [] then [] else TypeLines(qs[0], s[qs[0]]) + DumpLines(qs[1..], s)
  }

  /** The whole dump: types by ascending qualified name. */
  ghost function DumpText(s: Surface): string {
    JoinLines(DumpLines(Listing(s.Keys), s))
  }

  method Dump(s: Surface) returns (text: string)
    ensures text == DumpText(s)
  {
    var qs := Sorted(s.Keys);
    var lines := [];
    assert qs[0..] == qs && [] + DumpLines(qs, s) == DumpLines(qs, s);
    for i := 0 to |qs|
      invariant DumpLines(qs, s) == lines + DumpLines(qs[i..], s)
    {
      assert qs[i] in qs;
      var t := s[qs[i]];
      var head := HeaderText(Header(t.annotations, t.oneway, t.kind, qs[i]));
      var block := [head] + (MemberLines(t.members) + [""]);
      DumpStep(qs, i, s);
      Regroup(lines, block, DumpLines(qs[i + 1..], s));
      lines := lines + block;
    }
    assert qs[|qs|..] == [] && lines + [] == lines;
    text := JoinLines(lines);
  }

  lemma DumpStep(qs: seq<string>, i: nat, s: Surface)
    requires i < |qs| && forall q :: q in qs ==> q in s
    ensures qs[i] in s && DumpLines(qs[i..], s) == TypeLines(qs[i], s[qs[i]]) + DumpLines(qs[i + 1..], s)
  {
    assert qs[i] in qs && qs[i..][1..] == qs[i + 1..];
  }

  // ---- reading ------------------------------------------------------------

  predicate IsMemberLine(line: string) {
    |line| >= 4 && line[0] == line[1] == line[2] == line[3] == ' '
  }

  /** Reads lines into `types`; member lines belong to `cur`, the last header seen. */
  function ReadLines(lines: seq<string>, types: Surface, cur: Option<string>): Option<Surface>
    requires cur.Some? ==> cur.value in types
  {
    if lines == [] then Some(types)
    else
      var line, rest := lines[0], lines[1..];
      if Trim(line) == "" then ReadLines(rest, types, cur)
      else if IsMemberLine(line) then
        if cur.None? then ReadLines(rest, types, cur)
        else
          var t := types[cur.value];
          ReadLines(rest, types[cur.value := t.(members := t.members + [Trim(line)])], cur)
      else
        match ReadHeader(line)
        case None => None
        case Some(h) => ReadLines(rest, types[h.name := TypeDecl(h.kind, h.oneway, SortAll(h.annotations), [])], Some(h.name))
  }

  function ParseDump(text: string): Option<Surface> {
    ReadLines(SplitLines(text), map[], None)
  }

  /** Reads a dump line by line; `None` stands for the error raised at a bad header. */
  method ParseDumpLines(text: string) returns (r: Option<Surface>)
    ensures r == ParseDump(text)
  {
    var lines := SplitLines(text);
    var types: Surface, cur: Option<string> := map[], None;
    for i := 0 to |lines|
      invariant cur.Some? ==> cur.value in types
      invariant ParseDump(text) == ReadLines(lines[i..], types, cur)
    {
      var line := lines[i];
      assert lines[i..][0] == line && lines[i..][1..] == lines[i + 1..];
      if Trim(line) == "" {
        continue;
      }
      if IsMemberLine(line) {
        if cur.Some? {
          var t := types[cur.value];
          types := types[cur.value := t.(members := t.members + [Trim(line)])];
        }
        continue;
      }
      var h := ReadHeader(line);
      if h.None? {
        return None;
      }
      types := types[h.value.name := TypeDecl(h.value.kind, h.value.oneway, SortAll(h.value.annotations), [])];
      cur := Some(h.value.name);
    }
    r := Some(types);
  }

  // ---- reading undoes printing --------------------------------------------

  /** What every surface read from sources satisfies: sorted whole annotations, and member lines that
      are single, nonblank and trimmed. */
  predicate PrintableType(q: string, t: TypeDecl) {
    && ValidHeader(HeaderOf(q, t)) && Ordered(t.annotations)
    && forall i :: 0 <= i < |t.members| ==> IsTrimmed(t.members[i]) && OneLine(t.members[i])
  }

  predicate Printable(s: Surface) {
    forall q :: q in s ==> PrintableType(q, s[q])
  }

  lemma TrimIndented(m: string)
    requires IsTrimmed(m)
    ensures Trim(INDENT + m) == m && IsMemberLine(INDENT + m)
  {
    assert INDENT + m == " " + (" " + (" " + (" " + m)));
    TrimLeftSpace(m);
    TrimLeftSpace(" " + m);
    TrimLeftSpace(" " + (" " + m));
    TrimLeftSpace(" " + (" " + (" " + m)));
  }

  lemma TrimLeftSpace(s: string)
    ensures TrimLeft(" " + s) == TrimLeft(s)
  {
    assert (" " + s)[1..] == s;
  }

  lemma ReadMember(m: string, rest: seq<string>, types: Surface, q: string)
    requires q in types && IsTrimmed(m)
    ensures ReadLines([INDENT + m] + rest, types, Some(q)) ==
            ReadLines(rest, types[q := types[q].(members := types[q].members + [m])], Some(q))
  {
    TrimIndented(m);
    assert ([INDENT + m] + rest)[1..] == rest;
  }

  lemma UpdateTwice(types: Surface, q: string, a: TypeDecl, b: TypeDecl)
    ensures types[q := a][q := b] == types[q := b]
  {
  }

  lemma {:induction false} ReadMembers(ms: seq<string>, rest: seq<string>, types: Surface, q: string)
    requires q in types && forall i :: 0 <= i < |ms| ==> IsTrimmed(ms[i])
    ensures ReadLines(MemberLines(ms) + rest, types, Some(q)) ==
            ReadLines(rest, types[q := types[q].(members := types[q].members + ms)], Some(q))
  {
    if ms == [] {
      assert MemberLines(ms) + rest == rest;
      assert types[q].members + [] == types[q].members;
      assert types[q := types[q]] == types;
    } else {
      var t := types[q];
      var t' := t.(members := t.members + [ms[0]]);
      Regroup([INDENT + ms[0]], MemberLines(ms[1..]), rest);
      ReadMember(ms[0], MemberLines(ms[1..]) + rest, types, q);
      ReadMembers(ms[1..], rest, types[q := t'], q);
      Regroup(t.members, [ms[0]], ms[1..]);
      assert [ms[0]] + ms[1..] == ms;
      UpdateTwice(types, q, t', t.(members := t.members + ms));
    }
  }

  lemma ReadTypeHeader(q: string, t: TypeDecl, rest: seq<string>, types: Surface, cur: Option<string>)
    requires (cur.Some? ==> cur.value in types) && PrintableType(q, t)
    ensures ReadLines([HeaderText(HeaderOf(q, t))] + rest, types, cur) == ReadLines(rest, types[q := t.(members := [])], Some(q))
  {
    var line := HeaderText(HeaderOf(q, t));
    HeaderRoundTrip(HeaderOf(q, t));
    TrimOfTrimmed(line);
    Sorting.SortOfSorted(Less, t.annotations);
    assert ([line] + rest)[1..] == rest;
  }

  lemma ReadBlank(rest: seq<string>, types: Surface, cur: Option<string>)
    requires cur.Some? ==> cur.value in types
    ensures ReadLines([""] + rest, types, cur) == ReadLines(rest, types, cur)
  {
    assert ([""] + rest)[1..] == rest;
  }

  lemma ReadType(q: string, t: TypeDecl, rest: seq<string>, types: Surface, cur: Option<string>)
    requires (cur.Some? ==> cur.value in types) && PrintableType(q, t)
    ensures ReadLines(TypeLines(q, t) + rest, types, cur) == ReadLines(rest, types[q := t], Some(q))
  {
    var head, members := [HeaderText(HeaderOf(q, t))], MemberLines(t.members);
    Regroup(head, members + [""], rest);
    Regroup(members, [""], rest);
    ReadTypeHeader(q, t, members + ([""] + rest), types, cur);
    ReadMembers(t.members, [""] + rest, types[q := t.(members := [])], q);
    assert [] + t.members == t.members;
    UpdateTwice(types, q, t.(members := []), t);
    ReadBlank(rest, types[q := t], Some(q));
  }

  lemma {:induction false} ReadTypes(qs: seq<string>, s: Surface, types: Surface, cur: Option<string>)
    requires (forall q :: q in qs ==> q in s) && Printable(s) && (cur.Some? ==> cur.value in types)
    ensures ReadLines(DumpLines(qs, s), types, cur) == Some(types + Among(qs, s))
  {
    if qs != [] {
      var q := qs[0];
      assert q in qs && forall p :: p in qs[1..] ==> p in qs;
      ReadType(q, s[q], DumpLines(qs[1..], s), types, cur);
      ReadTypes(qs[1..], s, types[q := s[q]], Some(q));
      AmongStep(qs, s, types);
    } else {
      assert types + Among(qs, s) == types;
    }
  }

  /** The types called `qs`. */
  function Among(qs: seq<string>, s: Surface): Surface
    requires forall q :: q in qs ==> q in s
  {
    map q | q in qs :: s[q]
  }

  lemma AmongStep(qs: seq<string>, s: Surface, types: Surface)
    requires qs != [] && forall q :: q in qs ==> q in s
    ensures qs[0] in s && types[qs[0] := s[qs[0]]] + Among(qs[1..], s) == types + Among(qs, s)
  {
    assert qs == [qs[0]] + qs[1..] && qs[0] in qs;
  }

  // ---- no line is broken --------------------------------------------------

  lemma {:induction false} JoinIsOneLine(ws: seq<string>)
    requires AllAtoms(ws)
    ensures OneLine(JoinSpaces(ws))
  {
    if ws != [] {
      assert IsAtom(ws[0]) && OneLine(ws[0]);
      JoinIsOneLine(ws[1..]);
    }
  }

  lemma {:induction false} MembersAreLines(ms: seq<string>)
    requires forall i :: 0 <= i < |ms| ==> OneLine(ms[i])
    ensures forall i :: 0 <= i < |MemberLines(ms)| ==> OneLine(MemberLines(ms)[i])
  {
    if ms != [] {
      MembersAreLines(ms[1..]);
      assert OneLine(INDENT + ms[0]);
    }
  }

  lemma TypeIsLines(q: string, t: TypeDecl)
    requires PrintableType(q, t)
    ensures forall i :: 0 <= i < |TypeLines(q, t)| ==> OneLine(TypeLines(q, t)[i])
  {
    HeaderWordsAreAtoms(HeaderOf(q, t));
    JoinIsOneLine(t.annotations + HeaderWords(HeaderOf(q, t)));
    MembersAreLines(t.members);
  }

  /** A dump is whole lines, and the last one is empty. */
  lemma {:induction false} DumpIsLines(qs: seq<string>, s: Surface)
    requires (forall q :: q in qs ==> q in s) && Printable(s)
    ensures forall i :: 0 <= i < |DumpLines(qs, s)| ==> OneLine(DumpLines(qs, s)[i])
    ensures qs != [] ==> |DumpLines(qs, s)| > 0 && DumpLines(qs, s)[|DumpLines(qs, s)| - 1] == ""
  {
    if qs != [] {
      assert qs[0] in qs && forall q :: q in qs[1..] ==> q in qs;
      TypeIsLines(qs[0], s[qs[0]]);
      DumpIsLines(qs[1..], s);
    }
  }

  /** A last empty line reads as nothing. */
  lemma {:induction false} LastLineIsBlank(lines: seq<string>, types: Surface, cur: Option<string>)
    requires cur.Some? ==> cur.value in types
    ensures ReadLines(lines + [""], types, cur) == ReadLines(lines, types, cur)
  {
    if lines == [] {
      assert lines + [""] == [""];
    } else {
      assert (lines + [""])[1..] == lines[1..] + [""];
      var line := lines[0];
      if Trim(line) == "" || (IsMemberLine(line) && cur.None?) {
        LastLineIsBlank(lines[1..], types, cur);
      } else if IsMemberLine(line) {
        var t := types[cur.value];
        LastLineIsBlank(lines[1..], types[cur.value := t.(members := t.members + [Trim(line)])], cur);
      } else if ReadHeader(line).Some? {
        var h := ReadHeader(line).value;
        LastLineIsBlank(lines[1..], types[h.name := TypeDecl(h.kind, h.oneway, SortAll(h.annotations), [])], Some(h.name));
      }
    }
  }

  /** Reading a dump gives back the surface it was printed from. */
  lemma {:induction false} DumpRoundTrip(s: Surface)
    requires Printable(s)
    ensures ParseDump(DumpText(s)) == Some(s)
  {
    var lines := DumpLines(Listing(s.Keys), s);
    DumpedLinesRead(s);
    if lines != [] {
      DumpIsLines(Listing(s.Keys), s);
      JoinedReadsAsLines(lines);
    }
  }

  lemma {:induction false} DumpedLinesRead(s: Surface)
    requires Printable(s)
    ensures ReadLines(DumpLines(Listing(s.Keys), s), map[], None) == Some(s)
  {
    AmongAll(Listing(s.Keys), s);
    ReadTypes(Listing(s.Keys), s, map[], None);
  }

  lemma {:induction false} JoinedReadsAsLines(lines: seq<string>)
    requires lines != [] && lines[|lines| - 1] == "" && forall i :: 0 <= i < |lines| ==> OneLine(lines[i])
    ensures ReadLines(SplitLines(JoinLines(lines)), map[], None) == ReadLines(lines, map[], None)
  {
    SplitOfJoined(lines);
    LastLineIsBlank(SplitLines(JoinLines(lines)), map[], None);
  }

  lemma {:induction false} AmongAll(qs: seq<string>, s: Surface)
    requires forall q :: q in qs <==> q in s
    ensures map[] + Among(qs, s) == s
  {
  }

  /** Joining and splitting lines loses nothing but the empty last line. */
  lemma {:induction false} SplitOfJoined(lines: seq<string>)
    requires lines != [] && lines[|lines| - 1] == "" && forall i :: 0 <= i < |lines| ==> OneLine(lines[i])
    ensures SplitLines(JoinLines(lines)) + [""] == lines
  {
    var init := lines[..|lines| - 1];
    assert lines == init + [""];
    SplitUndoesJoin(init);
  }

  /** Two dumps are the same text exactly when the surfaces are the same. */
  lemma DumpIsInjective(a: Surface, b: Surface)
    requires Printable(a) && Printable(b)
    ensures DumpText(a) == DumpText(b) <==> a == b
  {
    DumpRoundTrip(a);
    DumpRoundTrip(b);
  }

  // ---- what a dump looks like ---------------------------------------------

  function SpaceAfterEach(ws: seq<string>): string {
    if ws == [] then "" else ws[0] + (" " + SpaceAfterEach(ws[1..]))
  }

  function IndentedLines(members: seq<string>): string {
    if members == [] then "" else "    " + (members[0] + ("\n" + IndentedLines(members[1..])))
  }

  /** One type: the annotations, each followed by a space, `oneway` if it is, the kind and the name on one
      line, then each member on an indented line. */
  function Block(q: string, t: TypeDecl): string {
    SpaceAfterEach(t.annotations) + ((if t.oneway then "oneway " else "") + (KindText(t.kind) + (" " + (q + ("\n" + IndentedLines(t.members))))))
  }

  lemma {:induction false} JoinAfterEach(ws: seq<string>, k: string, q: string)
    ensures JoinSpaces(ws + [k, q]) == SpaceAfterEach(ws) + (k + (" " + q))
  {
    if ws == [] {
      assert ws + [k, q] == [k, q] && [k, q][1..] == [q];
    } else {
      assert (ws + [k, q])[1..] == ws[1..] + [k, q];
      JoinAfterEach(ws[1..], k, q);
    }
  }

  lemma {:induction false} AfterOneMore(ws: seq<string>, w: string)
    ensures SpaceAfterEach(ws + [w]) == SpaceAfterEach(ws) + (w + " ")
  {
    if ws == [] {
      assert ws + [w] == [w] && [w][1..] == [];
    } else {
      assert (ws + [w])[1..] == ws[1..] + [w];
      AfterOneMore(ws[1..], w);
    }
  }

  lemma {:induction false} HeaderSpelled(q: string, t: TypeDecl)
    ensures HeaderText(HeaderOf(q, t)) == SpaceAfterEach(t.annotations) + ((if t.oneway then "oneway " else "") + (KindText(t.kind) + (" " + q)))
  {
    var anns, k := t.annotations, KindText(t.kind);
    if t.oneway {
      assert anns + HeaderWords(HeaderOf(q, t)) == (anns + ["oneway"]) + [k, q];
      JoinAfterEach(anns + ["oneway"], k, q);
      AfterOneMore(anns, "oneway");
      Regroup(SpaceAfterEach(anns), "oneway ", k + (" " + q));
    } else {
      assert anns + HeaderWords(HeaderOf(q, t)) == anns + [k, q];
      JoinAfterEach(anns, k, q);
      assert "" + (k + (" " + q)) == k + (" " + q);
    }
  }

  lemma {:induction false} JoinStep(line: string, more: seq<string>)
    requires more != []
    ensures JoinLines([line] + more) == line + ("\n" + JoinLines(more))
  {
    assert ([line] + more)[1..] == more;
  }

  lemma {:induction false} Glue(a: string, b: string, c: string, d: string, end: string)
    ensures (a + b) + (c + (d + end)) == (a + (b + (c + d))) + end
  {
  }

  /** What comes after a block when `rest` follows. */
  function Ending(rest: seq<string>): string {
    if rest == [] then "" else "\n" + JoinLines(rest)
  }

  lemma {:induction false} JoinEmpty(rest: seq<string>)
    ensures JoinLines([""] + rest) == Ending(rest)
  {
    if rest == [] {
      assert [""] + rest == [""];
    } else {
      JoinStep("", rest);
    }
  }

  lemma {:induction false} IndentedIsJoined(members: seq<string>, rest: seq<string>)
    ensures JoinLines(MemberLines(members) + ([""] + rest)) == IndentedLines(members) + Ending(rest)
  {
    if members == [] {
      assert MemberLines(members) + ([""] + rest) == [""] + rest;
      JoinEmpty(rest);
    } else {
      var line, more := INDENT + members[0], MemberLines(members[1..]) + ([""] + rest);
      Regroup([line], MemberLines(members[1..]), [""] + rest);
      JoinStep(line, more);
      IndentedIsJoined(members[1..], rest);
      Glue(INDENT, members[0], "\n", IndentedLines(members[1..]), Ending(rest));
    }
  }

  lemma {:induction false} BlockIsJoined(q: string, t: TypeDecl, rest: seq<string>)
    ensures JoinLines(TypeLines(q, t) + rest) == Block(q, t) + Ending(rest)
  {
    var head, more := HeaderText(HeaderOf(q, t)), MemberLines(t.members) + ([""] + rest);
    Regroup([head], MemberLines(t.members) + [""], rest);
    Regroup(MemberLines(t.members), [""], rest);
    JoinStep(head, more);
    IndentedIsJoined(t.members, rest);
    BlockSpelled(q, t, Ending(rest));
  }

  lemma {:induction false} BlockSpelled(q: string, t: TypeDecl, end: string)
    ensures HeaderText(HeaderOf(q, t)) + ("\n" + (IndentedLines(t.members) + end)) == Block(q, t) + end
  {
    HeaderSpelled(q, t);
    Longer(SpaceAfterEach(t.annotations), if t.oneway then "oneway " else "", KindText(t.kind), q, "\n", IndentedLines(t.members), end);
  }

  lemma {:induction false} Longer(a: string, o: string, k: string, q: string, feed: string, m: string, end: string)
    ensures (a + (o + (k + (" " + q)))) + (feed + (m + end)) == (a + (o + (k + (" " + (q + (feed + m)))))) + end
  {
    Glue(" ", q, feed, m, end);
    Regroup(k, " " + q, feed + (m + end));
    Regroup(k, " " + (q + (feed + m)), end);
    Regroup(o, k + (" " + q), feed + (m + end));
    Regroup(o, k + (" " + (q + (feed + m))), end);
    Regroup(a, o + (k + (" " + q)), feed + (m + end));
    Regroup(a, o + (k + (" " + (q + (feed + m)))), end);
  }

  /** The dump is the blocks of its types with an empty line between any two. */
  lemma {:induction false} DumpIsBlocks(qs: seq<string>, s: Surface)
    requires qs != [] && forall q :: q in qs ==> q in s
    ensures JoinLines(DumpLines(qs, s)) == Block(qs[0], s[qs[0]]) + if |qs| == 1 then "" else "\n" + JoinLines(DumpLines(qs[1..], s))
  {
    BlockIsJoined(qs[0], s[qs[0]], DumpLines(qs[1..], s));
    if |qs| > 1 {
      assert DumpLines(qs[1..], s) != [];
    }
  }

  // ---- what is no dump ----------------------------------------------------

  /** Neither blank, nor indented, nor a header. */
  predicate IsBadLine(line: string) {
    Trim(line) != "" && !IsMemberLine(line) && ReadHeader(line) == None
  }

  /** Reading fails exactly at such a line. */
  lemma {:induction false} BadLineFails(lines: seq<string>, types: Surface, cur: Option<string>)
    requires cur.Some? ==> cur.value in types
    ensures ReadLines(lines, types, cur) == None <==> exists i :: 0 <= i < |lines| && IsBadLine(lines[i])
  {
    if lines != [] {
      var line, rest := lines[0], lines[1..];
      assert (exists i :: 0 <= i < |lines| && IsBadLine(lines[i])) <==> IsBadLine(line) || exists i :: 0 <= i < |rest| && IsBadLine(rest[i]) by {
        if i :| 0 <= i < |rest| && IsBadLine(rest[i]) {
          assert lines[i + 1] == rest[i];
        }
        if i :| 0 < i < |lines| && IsBadLine(lines[i]) {
          assert rest[i - 1] == lines[i];
        }
      }
      if Trim(line) == "" || (IsMemberLine(line) && cur.None?) {
        BadLineFails(rest, types, cur);
      } else if IsMemberLine(line) {
        var t := types[cur.value];
        BadLineFails(rest, types[cur.value := t.(members := t.members + [Trim(line)])], cur);
      } else if ReadHeader(line).Some? {
        var h := ReadHeader(line).value;
        BadLineFails(rest, types[h.name := TypeDecl(h.kind, h.oneway, SortAll(h.annotations), [])], Some(h.name));
      }
    }
  }

  // ---- what is read is sorted ---------------------------------------------

  ghost predicate SortedTypes(types: Surface) {
    forall q :: q in types ==> Ordered(types[q].annotations)
  }

  lemma {:induction false} AllSorted(anns: seq<string>)
    ensures Ordered(SortAll(anns)) && multiset(SortAll(anns)) == multiset(anns)
  {
    forall a, b ensures !(Less(a, b) && Less(b, a)) && (a == b || Less(a, b) || Less(b, a)) {
      LessTotal(a, b);
    }
    forall a, b, c | Less(a, b) && Less(b, c) ensures Less(a, c) {
      LessTransitive(a, b, c);
    }
    Sorting.SortSorts(Less, anns);
  }

  /** Whatever order a dump lists annotations in, they are read in sorted order. */
  lemma {:induction false} ReadIsSorted(lines: seq<string>, types: Surface, cur: Option<string>)
    requires (cur.Some? ==> cur.value in types) && SortedTypes(types) && ReadLines(lines, types, cur).Some?
    ensures SortedTypes(ReadLines(lines, types, cur).value)
  {
    if lines != [] {
      var line, rest := lines[0], lines[1..];
      if Trim(line) == "" || (IsMemberLine(line) && cur.None?) {
        ReadIsSorted(rest, types, cur);
      } else if IsMemberLine(line) {
        var t := types[cur.value];
        ReadIsSorted(rest, types[cur.value := t.(members := t.members + [Trim(line)])], cur);
      } else {
        var h := ReadHeader(line).value;
        AllSorted(h.annotations);
        ReadIsSorted(rest, types[h.name := TypeDecl(h.kind, h.oneway, SortAll(h.annotations), [])], Some(h.name));
      }
    }
  }
}
