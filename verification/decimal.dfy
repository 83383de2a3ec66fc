/**
 Decimal rendering of the integer values stored in the trie, as Java's
 `StringBuilder.append(Integer)` writes them: an optional minus sign followed
 by the digits without leading zeros. `Read` is its inverse.
 */
module Decimal {
  import opened Wrappers

  predicate IsDigit(c: char) {
    '0' <= c <= '9'
  }

  predicate AllDigits(s: string) {
    forall i :: 0 <= i < |s| ==> IsDigit(s[i])
  }

  function DigitChar(d: int): (c: char)
    requires 0 <= d < 10
    ensures IsDigit(c)
  {
    ('0' as int + d) as char
  }

  function DigitValue(c: char): (d: int)
    requires IsDigit(c)
    ensures 0 <= d < 10 && DigitChar(d) == c
  {
    c as int - '0' as int
  }

  /** The digits of a natural number, most significant first. */
  function ShowNat(n: nat): (s: string)
    ensures |s| >= 1 && AllDigits(s)
    ensures |s| > 1 ==> s[0] != '0'
    decreases n
  {
    if n < 10 then [DigitChar(n)] else ShowNat(n / 10) + [DigitChar(n % 10)]
  }

  /** The decimal text of a stored value. */
  function Show(x: int): (s: string)
    ensures |s| >= 1
    ensures s[0] == '-' <==> x < 0
    ensures forall i :: 0 < i < |s| ==> IsDigit(s[i])
  {
    if x < 0 then "-" + ShowNat(-x) else ShowNat(x)
  }

  /** The value of a string of digits, most significant first. */
  function ReadNat(s: string): nat
    requires AllDigits(s)
  {
    if s == [] then 0 else ReadNat(s[..|s| - 1]) * 10 + DigitValue(s[|s| - 1])
  }

  /** Reads the text `Show` produces; anything else is rejected. */
  function Read(s: string): Option<int> {
    if |s| > 1 && s[0] == '-' && AllDigits(s[1..]) then Some(-(ReadNat(s[1..]) as int))
    else if |s| > 0 && AllDigits(s) then Some(ReadNat(s))
    else None
  }

  lemma {:induction false} ReadShowNat(n: nat)
    ensures ReadNat(ShowNat(n)) == n
    decreases n
  {
    if n >= 10 {
      var s := ShowNat(n);
      assert s[..|s| - 1] == ShowNat(n / 10);
      ReadShowNat(n / 10);
    }
  }

  /** Reading back the rendering of a value yields the value. */
  lemma ShowRoundTrip(x: int)
    ensures Read(Show(x)) == Some(x)
  {
    if x < 0 {
      ReadShowNat(-x);
      assert Show(x)[1..] == ShowNat(-x);
    } else {
      ReadShowNat(x);
    }
  }

  /** Distinct values render differently. */
  lemma ShowInjective(x: int, y: int)
    ensures Show(x) == Show(y) <==> x == y
  {
    ShowRoundTrip(x);
    ShowRoundTrip(y);
  }
}
