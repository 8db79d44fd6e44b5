/** The name of a member line is the identifier it declares. */
module MemberNames {
  import opened Text
  import opened SurfaceModel

  predicate Lacks(s: string, c: char) {
    forall i :: 0 <= i < |s| ==> s[i] != c
  }

  lemma {:induction false} FoundAt(s: string, c: char, k: nat)
    requires k < |s| && s[k] == c && Lacks(s[..k], c)
    ensures Find(s, [c]) == k && Contains(s, [c])
  {
    assert s[k..k + 1] == [c];
    assert OccursAt(s, [c], k);
    forall j: nat | j < k ensures !OccursAt(s, [c], j) {
      assert s[j..j + 1][0] == s[j] == s[..k][j];
    }
  }

  lemma {:induction false} NotFound(s: string, c: char)
    requires Lacks(s, c)
    ensures !Contains(s, [c])
  {
    forall j: nat ensures !OccursAt(s, [c], j) {
      if j < |s| {
        assert s[j..j + 1][0] == s[j];
      }
    }
  }

  lemma {:induction false} CutBefore(a: string, c: char, rest: string)
    requires Lacks(a, c)
    ensures Contains(a + ([c] + rest), [c]) && Before(a + ([c] + rest), [c]) == a
  {
    var s := a + ([c] + rest);
    assert s[..|a|] == a;
    FoundAt(s, c, |a|);
  }

  lemma {:induction false} WordSuffixOf(a: string, name: string)
    requires (a == "" || !IsWord(a[|a| - 1])) && forall i :: 0 <= i < |name| ==> IsWord(name[i])
    ensures WordSuffix(a + name) == name
  {
    if name == "" {
      assert a + name == a;
    } else {
      var k := |name| - 1;
      assert (a + name)[..|a + name| - 1] == a + name[..k];
      WordSuffixOf(a, name[..k]);
    }
  }

  lemma {:induction false} AfterLastSpaceOf(a: string, name: string)
    requires (a == "" || IsSpace(a[|a| - 1])) && forall i :: 0 <= i < |name| ==> !IsSpace(name[i])
    ensures AfterLastSpace(a + name) == name
  {
    if name == "" {
      assert a + name == a;
    } else {
      var k := |name| - 1;
      assert (a + name)[..|a + name| - 1] == a + name[..k];
      AfterLastSpaceOf(a, name[..k]);
    }
  }

  /** The part of a line before its name: neither a parameter list nor a value starts in it. */
  predicate IsPrelude(a: string) {
    Lacks(a, '(') && Lacks(a, '=')
  }

  /** The name of a method is the word before its parameter list, whatever the list and the modifiers. */
  lemma {:induction false} MethodLine(kind: Kind, a: string, name: string, rest: string)
    requires kind != Enum && IsPrelude(a) && (a == "" || !IsWord(a[|a| - 1])) && IsIdentifier(name)
    requires !IsConst(a + name + ("(" + rest))
    ensures MemberName(kind, a + name + ("(" + rest)) == name
  {
    assert Lacks(a + name, '(') && Lacks(a + name, '=');
    CutBefore(a + name, '(', rest);
    NotFound(a + name, '=');
    WordSuffixOf(a, name);
    assert TrimRight(a + name) == a + name;
  }

  /** The name of a field, constant or enumerator is the last word before its value, if it has one. */
  lemma {:induction false} ValueLine(kind: Kind, a: string, name: string, value: string)
    requires IsPrelude(a) && (a == "" || IsSpace(a[|a| - 1])) && IsIdentifier(name)
    ensures MemberName(kind, a + name) == name
    ensures MemberName(kind, a + name + (" = " + value)) == name
  {
    BareName(a, name);
    WithValue(a, name, value);
  }

  lemma {:induction false} BareName(a: string, name: string)
    requires IsPrelude(a) && (a == "" || IsSpace(a[|a| - 1])) && IsIdentifier(name)
    ensures DeclaredName(a + name) == name && MethodName(a + name) == ""
  {
    assert Lacks(a + name, '(') && Lacks(a + name, '=');
    NotFound(a + name, '=');
    NotFound(a + name, '(');
    AfterLastSpaceOf(a, name);
    assert TrimRight(a + name) == a + name;
  }

  lemma {:induction false} WithValue(a: string, name: string, value: string)
    requires IsPrelude(a) && (a == "" || IsSpace(a[|a| - 1])) && IsIdentifier(name)
    ensures var s := a + name + (" = " + value); DeclaredName(s) == name && MethodName(s) == ""
  {
    var s, head := a + name + (" = " + value), a + name + " ";
    assert Lacks(head, '(') && Lacks(head, '=');
    assert s == head + ("=" + (" " + value));
    CutBefore(head, '=', " " + value);
    assert head[..|head| - 1] == a + name;
    assert TrimRight(head) == TrimRight(a + name) == a + name;
    AfterLastSpaceOf(a, name);
    EqualsComesFirst(head, " " + value);
  }

  /** A parenthesis after the equals sign opens no parameter list. */
  lemma {:induction false} EqualsComesFirst(head: string, rest: string)
    requires Lacks(head, '(') && Lacks(head, '=')
    ensures MethodName(head + ("=" + rest)) == ""
  {
    var s := head + ("=" + rest);
    if Contains(s, "(") {
      var k := Find(s, "(");
      assert s[k..k + 1] == "(" && s[k] == s[k..k + 1][0] == '(';
      assert k > |head|;
      var b := s[..k];
      assert b[|head|] == '=' && b[..|head|] == head;
      FoundAt(b, '=', |head|);
    }
  }
}
