/** Searching in text, and numerals. */
module Text {

  predicate OccursAt(text: string, pat: string, k: nat) {
    k + |pat| <= |text| && text[k..k + |pat|] == pat
  }

  predicate StartsWith(text: string, pat: string) {
    OccursAt(text, pat, 0)
  }

  lemma {:induction false} OccursAtShift(text: string, pat: string, j: nat)
    requires 0 < j && text != ""
    ensures OccursAt(text, pat, j) <==> OccursAt(text[1..], pat, j - 1)
  {
    if j + |pat| <= |text| {
      assert text[j..j + |pat|] == text[1..][j - 1..j - 1 + |pat|];
    }
  }

  /** The first position at which `pat` occurs, or -1. */
  function Find(text: string, pat: string): (k: int)
    ensures k >= 0 ==> OccursAt(text, pat, k) && forall j: nat :: j < k ==> !OccursAt(text, pat, j)
    ensures k < 0 ==> forall j: nat :: !OccursAt(text, pat, j)
  {
    if |text| < |pat| then -1
    else if text[..|pat|] == pat then 0
    else if text == "" then -1
    else
      var k := Find(text[1..], pat);
      assert forall j: nat {:trigger OccursAt(text, pat, j)} :: j > 0 ==>
          (OccursAt(text, pat, j) <==> OccursAt(text[1..], pat, j - 1)) by {
        forall j: nat {:trigger OccursAt(text, pat, j)} | j > 0
          ensures OccursAt(text, pat, j) <==> OccursAt(text[1..], pat, j - 1)
        {
          OccursAtShift(text, pat, j);
        }
      }
      if k < 0 then -1 else k + 1
  }

  predicate Contains(text: string, pat: string) {
    Find(text, pat) >= 0
  }

  function Digit(d: nat): char
    requires d < 10
  {
    ('0' as int + d) as char
  }

  /** The decimal numeral of a number. */
  function Decimal(n: nat): (s: string)
    ensures |s| > 0
  {
    if n < 10 then [Digit(n)] else Decimal(n / 10) + [Digit(n % 10)]
  }

  /** The number a string of digits denotes. */
  function Number(s: string): int {
    if s == "" then 0 else 10 * Number(s[..|s| - 1]) + (s[|s| - 1] as int - '0' as int)
  }

  lemma {:induction false} NumberOfDecimal(n: nat)
    ensures Number(Decimal(n)) == n
  {
    if n >= 10 {
      NumberOfDecimal(n / 10);
      assert Decimal(n)[..|Decimal(n)| - 1] == Decimal(n / 10);
    } else {
      assert Decimal(n)[..0] == "";
    }
  }

  lemma {:induction false} DecimalIsDigits(n: nat)
    ensures forall i :: 0 <= i < |Decimal(n)| ==> '0' <= Decimal(n)[i] <= '9'
  {
    if n >= 10 {
      DecimalIsDigits(n / 10);
    }
  }
}
