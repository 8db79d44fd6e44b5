/** Declared AIDL surfaces, as dumps hold them. */
module SurfaceModel {
  import opened Text

  datatype Kind = Interface | Parcelable | Union | Enum

  function KindText(k: Kind): string {
    match k
    case Interface => "interface"
    case Parcelable => "parcelable"
    case Union => "union"
    case Enum => "enum"
  }

  /** Annotations are sorted; members are canonical lines in declaration order. */
  datatype TypeDecl = TypeDecl(kind: Kind, oneway: bool, annotations: seq<string>, members: seq<string>)

  /** Types by qualified name. */
  type Surface = map<string, TypeDecl>

  // ---- characters ---------------------------------------------------------

  /** What `str.split`, `str.strip` and `\s` take for white space. */
  predicate IsSpace(c: char) {
    || '\t' <= c <= '\r' || '\U{1c}' <= c <= ' ' || c == '\U{85}' || c == '\U{a0}'
    || c == '\U{1680}' || '\U{2000}' <= c <= '\U{200a}' || c == '\U{2028}' || c == '\U{2029}'
    || c == '\U{202f}' || c == '\U{205f}' || c == '\U{3000}'
  }

  /** The ASCII part of `\w`. */
  predicate IsWord(c: char) {
    'a' <= c <= 'z' || 'A' <= c <= 'Z' || '0' <= c <= '9' || c == '_'
  }

  predicate IsIdentifier(s: string) {
    s != "" && forall i :: 0 <= i < |s| ==> IsWord(s[i])
  }

  /** What `str.splitlines` takes for a line break. */
  predicate IsBreak(c: char) {
    '\n' <= c <= '\r' || '\U{1c}' <= c <= '\U{1e}' || c == '\U{85}' || c == '\U{2028}' || c == '\U{2029}'
  }

  predicate OneLine(s: string) {
    forall i :: 0 <= i < |s| ==> !IsBreak(s[i])
  }

  /** The three classes by code point. */
  lemma {:induction false} CodePoints(c: char)
    ensures IsWord(c) <==> 48 <= c as int <= 57 || 65 <= c as int <= 90 || 97 <= c as int <= 122 || c as int == 95
    ensures IsSpace(c) <==>
      c as int in {9, 10, 11, 12, 13, 28, 29, 30, 31, 32, 133, 160, 5760, 8192, 8193, 8194, 8195, 8196, 8197, 8198, 8199, 8200, 8201, 8202,
                   8232, 8233, 8239, 8287, 12288}
    ensures IsBreak(c) <==> c as int in {10, 11, 12, 13, 28, 29, 30, 133, 8232, 8233}
  {
  }

  function TrimRight(s: string): (r: string)
    ensures r <= s && (r != "" ==> !IsSpace(r[|r| - 1]))
    ensures forall i :: |r| <= i < |s| ==> IsSpace(s[i])
  {
    if s != "" && IsSpace(s[|s| - 1]) then TrimRight(s[..|s| - 1]) else s
  }

  // ---- member names -------------------------------------------------------

  /** The characters after the last white space. */
  function AfterLastSpace(s: string): string {
    if s == "" || IsSpace(s[|s| - 1]) then "" else AfterLastSpace(s[..|s| - 1]) + [s[|s| - 1]]
  }

  function WordSuffix(s: string): string {
    if s == "" || !IsWord(s[|s| - 1]) then "" else WordSuffix(s[..|s| - 1]) + [s[|s| - 1]]
  }

  function Before(s: string, pat: string): string {
    if Find(s, pat) < 0 then s else s[..Find(s, pat)]
  }

  /** The last word before the first `=`; empty when there is none. */
  function DeclaredName(member: string): string {
    AfterLastSpace(TrimRight(Before(member, "=")))
  }

  /** The word right before the first parenthesis, unless a `=` comes earlier. */
  function MethodName(member: string): string {
    if !Contains(member, "(") || Contains(Before(member, "("), "=") then ""
    else WordSuffix(TrimRight(Before(member, "(")))
  }

  predicate IsConst(member: string) {
    StartsWith(member, "const ")
  }

  /** The identity of a member line: its declared name. */
  function MemberName(kind: Kind, member: string): string {
    if kind == Enum || IsConst(member) || MethodName(member) == "" then DeclaredName(member)
    else MethodName(member)
  }
}
