/** How versioned targets are written in definition files and dependency lists, and read back. */
module TargetNames {
  import opened Basics
  import opened Text
  import opened VersionStore

  /** `name-vN`, as a freeze records an import. */
  function TargetText(t: Target): string {
    t.name + "-v" + Decimal(t.version)
  }

  /** Splits at the first separator; the second part is empty when there is none. */
  function Partition(text: string, sep: string): (r: (string, string))
    requires sep != ""
  {
    var k := Find(text, sep);
    if k < 0 then (text, "") else (text[..k], text[k + |sep|..])
  }

  function ReadTarget(text: string): (string, string) {
    Partition(text, "-v")
  }

  /** The separator is found right after a name exactly when the name does not contain it. */
  lemma {:induction false} FirstSeparator(name: string, rest: string)
    ensures Find(name + "-v" + rest, "-v") == |name| <==> !Contains(name, "-v")
    ensures !Contains(name, "-v") <==> ReadTarget(name + "-v" + rest).0 == name
  {
    var text := name + "-v" + rest;
    var k := Find(text, "-v");
    assert OccursAt(text, "-v", |name|);
    forall j: nat | j < |name| ensures OccursAt(text, "-v", j) <==> OccursAt(name, "-v", j) {
      if j + 1 == |name| {
        assert text[j..j + 2][1] == '-' && "-v"[1] == 'v';
      } else {
        assert text[j..j + 2] == name[j..j + 2];
      }
    }
    assert |ReadTarget(text).0| == k;
    assert text[..|name|] == name;
  }

  /** Reading a record gives back what was frozen exactly when the name contains no `-v`. */
  lemma {:induction false} RecordRoundTrip(t: Target)
    ensures (ReadTarget(TargetText(t)).0 == t.name && Number(ReadTarget(TargetText(t)).1) == t.version)
            <==> !Contains(t.name, "-v")
  {
    FirstSeparator(t.name, Decimal(t.version));
    NumberOfDecimal(t.version);
    if !Contains(t.name, "-v") {
      assert TargetText(t)[|t.name| + 2..] == Decimal(t.version);
    }
  }

  /** A name that contains the separator is read back as what comes before it. */
  lemma {:induction false} SeparatorInNameIsMisread(t: Target)
    requires Contains(t.name, "-v")
    ensures ReadTarget(TargetText(t)).0 == t.name[..Find(t.name, "-v")] != t.name
  {
    var text, k := TargetText(t), Find(t.name, "-v");
    assert text[k..k + 2] == t.name[k..k + 2];
    assert OccursAt(text, "-v", k);
    forall j: nat | j < k ensures !OccursAt(text, "-v", j) {
      assert text[j..j + 2] == t.name[j..j + 2];
      assert !OccursAt(t.name, "-v", j);
    }
    assert text[..k] == t.name[..k];
  }

  // ---- library targets ----------------------------------------------------

  /** What follows `-v` in a target: the word `current`, a numeral, or any other pin. */
  datatype Tag = Current | Numbered(n: nat) | Other(text: string)

  function TagText(v: Tag): string {
    match v
    case Current => "current"
    case Numbered(n) => Decimal(n)
    case Other(text) => text
  }

  function TagOf(text: string): Tag {
    if text == "current" then Current
    else if Number(text) >= 0 && text == Decimal(Number(text)) then Numbered(Number(text))
    else Other(text)
  }

  /** Tags and their texts determine each other. */
  lemma {:induction false} TagRoundTrip(text: string, v: Tag)
    ensures TagText(TagOf(text)) == text
    ensures v.Other? || TagOf(TagText(v)) == v
    ensures TagOf(text) == TagOf(TagText(TagOf(text)))
  {
    if v.Numbered? {
      NumberOfDecimal(v.n);
      DecimalIsDigits(v.n);
      assert "current"[0] == 'c';
    }
  }

  /** A library target, written `name-vTAG-cpp`. */
  datatype Lib = Lib(name: string, version: Tag)

  function LibText(l: Lib): string {
    l.name + "-v" + TagText(l.version) + "-cpp"
  }

  lemma {:induction false} LibTextParts(l: Lib)
    ensures var t := LibText(l); |t| == |l.name| + 2 + |TagText(l.version)| + 4
    ensures var t := LibText(l); t[..|l.name|] == l.name && t[|l.name|] == '-' && t[|l.name| + 1] == 'v'
    ensures var t := LibText(l); t[|l.name| + 2..|t| - 4] == TagText(l.version)
  {
  }

  lemma {:induction false} LongerNameInTag(a: Lib, b: Lib)
    requires LibText(a) == LibText(b) && |a.name| + 2 <= |b.name|
    ensures Contains(TagText(a.version), "-v")
  {
    LibTextParts(a);
    LibTextParts(b);
    var t, tag, k := LibText(a), TagText(a.version), |b.name| - (|a.name| + 2);
    assert tag[k] == t[|b.name|] && tag[k + 1] == t[|b.name| + 1];
    assert tag[k..k + 2] == "-v";
    assert OccursAt(tag, "-v", k);
  }

  /** The separator before a tag is the last one, so no other target can have a longer name. */
  lemma {:induction false} NoLongerName(a: Lib, b: Lib)
    requires !Contains(TagText(a.version), "-v") && LibText(a) == LibText(b)
    ensures |b.name| <= |a.name|
  {
    LibTextParts(a);
    LibTextParts(b);
    if |a.name| + 2 <= |b.name| {
      LongerNameInTag(a, b);
    }
  }

  /** Tags without `-v` make target names unambiguous, whatever the interfaces are called. */
  lemma {:induction false} LibTextInjective(a: Lib, b: Lib)
    requires !Contains(TagText(a.version), "-v") && !Contains(TagText(b.version), "-v")
    ensures LibText(a) == LibText(b) <==> a.name == b.name && TagText(a.version) == TagText(b.version)
  {
    if LibText(a) == LibText(b) {
      NoLongerName(a, b);
      NoLongerName(b, a);
      LibTextParts(a);
      LibTextParts(b);
    }
  }

  // ---- records read back --------------------------------------------------

  /** What the loader makes of a recorded target.  A version that is no numeral names no frozen version;
      0 stands for it. */
  function Reread(d: Target): Target {
    var parts := ReadTarget(TargetText(d));
    Target(parts.0, match TagOf(parts.1) case Numbered(n) => n case _ => 0)
  }

  lemma {:induction false} RereadPlain(d: Target)
    requires !Contains(d.name, "-v")
    ensures Reread(d) == d
  {
    FirstSeparator(d.name, Decimal(d.version));
    assert TargetText(d)[|d.name| + 2..] == Decimal(d.version);
    TagRoundTrip(Decimal(d.version), Numbered(d.version));
  }

  lemma {:induction false} NoNumeral(text: string, k: nat)
    requires k < |text| && text[k] == 'v'
    ensures !TagOf(text).Numbered?
  {
    if Number(text) >= 0 {
      DecimalIsDigits(Number(text));
    }
  }

  /** A record of a name with the separator is read as a version that never exists. */
  lemma {:induction false} RereadMisreads(d: Target)
    requires Contains(d.name, "-v")
    ensures Reread(d) == Target(d.name[..Find(d.name, "-v")], 0)
  {
    SeparatorInNameIsMisread(d);
    var text, k := TargetText(d), Find(d.name, "-v");
    assert |ReadTarget(text).0| == k && Find(text, "-v") == k;
    var rest := text[k + 2..];
    assert rest[|d.name| + 1 - (k + 2)] == text[|d.name| + 1] == 'v';
    NoNumeral(rest, |d.name| + 1 - (k + 2));
  }

  /** What is read never contains the separator. */
  lemma {:induction false} NamesReadArePlain(text: string)
    ensures !Contains(ReadTarget(text).0, "-v")
  {
    var k := Find(text, "-v");
    var name := ReadTarget(text).0;
    forall j: nat ensures !OccursAt(name, "-v", j) {
      if OccursAt(name, "-v", j) {
        assert text[j..j + 2] == name[j..j + 2];
        assert OccursAt(text, "-v", j);
      }
    }
  }

  // ---- import entries -----------------------------------------------------

  /** Reads one `imports` entry; `None` stands for the error raised on an empty part. */
  function ReadImport(spec: string): (r: Option<ImportSpec>)
  {
    if !Contains(spec, "@") then Some(ImportSpec(spec, None))
    else
      var parts := Partition(spec, "@");
      if parts.0 == "" || parts.1 == "" then None else Some(ImportSpec(parts.0, Some(parts.1)))
  }

  function ImportText(i: ImportSpec): string {
    match i.pin
    case None => i.name
    case Some(v) => i.name + "@" + v
  }

  /** An entry is read back as written exactly when its name has no `@` and, if it is pinned, both
      parts are nonempty. */
  lemma {:induction false} ImportRoundTrip(i: ImportSpec)
    ensures ReadImport(ImportText(i)) == Some(i)
            <==> !Contains(i.name, "@") && (i.pin.Some? ==> i.name != "" && i.pin.value != "")
  {
    if i.pin.Some? {
      var text := i.name + "@" + i.pin.value;
      assert OccursAt(text, "@", |i.name|);
      forall j: nat | j < |i.name| ensures OccursAt(text, "@", j) <==> OccursAt(i.name, "@", j) {
        assert text[j..j + 1] == i.name[j..j + 1];
      }
      if !Contains(i.name, "@") {
        assert Find(text, "@") == |i.name|;
        assert text[..|i.name|] == i.name && text[|i.name| + 1..] == i.pin.value;
      }
    }
  }
}
