/**
 * Decimal rendering of integers as Go's fmt prints them with the %v verb, and the
 * matching reader used to state that the rendering loses nothing.
 */
module Fmt {
  import opened Wrappers

  predicate IsDigit(c: char) { '0' <= c <= '9' }

  predicate AllDigits(s: string) { forall i :: 0 <= i < |s| ==> IsDigit(s[i]) }

  function DigitChar(d: nat): (c: char)
    requires d < 10
    ensures IsDigit(c) && c as int - '0' as int == d
  {
    ('0' as int + d) as char
  }

  function DigitValue(c: char): (d: nat)
    requires IsDigit(c)
    ensures d < 10
  {
    c as int - '0' as int
  }

  /** The decimal digits of n, most significant first, without leading zeros. */
  function NatDecimal(n: nat): (r: string)
    ensures |r| >= 1 && AllDigits(r)
    ensures |r| > 1 ==> r[0] != '0'
    decreases n
  {
    if n < 10 then [DigitChar(n)] else NatDecimal(n / 10) + [DigitChar(n % 10)]
  }

  /** %v of a signed integer: a '-' for negative values, then the digits of the magnitude. */
  function Decimal(i: int): (r: string)
    ensures |r| >= 1
    ensures (r[0] == '-') == (i < 0)
  {
    if i < 0 then "-" + NatDecimal(-i) else NatDecimal(i)
  }

  /** The value of a string of decimal digits. */
  function DigitsValue(s: string): nat
    requires AllDigits(s)
  {
    if s == [] then 0 else DigitsValue(s[..|s| - 1]) * 10 + DigitValue(s[|s| - 1])
  }

  /** Reads an optionally signed decimal integer; None for anything else. */
  function ParseDecimal(s: string): (r: Option<int>)
    ensures r.Some? ==> s != []
  {
    if s == [] then None
    else if s[0] == '-' then
      if |s| > 1 && AllDigits(s[1..]) then Some(0 - DigitsValue(s[1..]) as int) else None
    else if AllDigits(s) then Some(DigitsValue(s))
    else None
  }

  lemma {:induction false} NatDecimalValue(n: nat)
    ensures DigitsValue(NatDecimal(n)) == n
    decreases n
  {
    if n >= 10 {
      NatDecimalValue(n / 10);
      var r := NatDecimal(n);
      assert r[..|r| - 1] == NatDecimal(n / 10);
    }
  }

  /** Decimal is undone by ParseDecimal. */
  lemma DecimalRoundTrip(i: int)
    ensures ParseDecimal(Decimal(i)) == Some(i)
  {
    if i < 0 {
      NatDecimalValue(-i);
      assert Decimal(i)[1..] == NatDecimal(-i);
    } else {
      NatDecimalValue(i);
    }
  }

  /** Index of the first occurrence of c in s, or |s| when there is none. */
  function IndexOf(s: string, c: char): (k: nat)
    ensures k <= |s|
    ensures forall i :: 0 <= i < k ==> s[i] != c
    ensures k < |s| ==> s[k] == c
  {
    if s == [] then 0 else if s[0] == c then 0 else 1 + IndexOf(s[1..], c)
  }

  lemma IndexOfIs(s: string, c: char, k: nat)
    requires k < |s| && s[k] == c && forall i :: 0 <= i < k ==> s[i] != c
    ensures IndexOf(s, c) == k
  {
    var j := IndexOf(s, c);
    assert !(j < k) && !(k < j);
  }

  /** Reads "a:b" with two decimal integers. */
  function ParseDecimalPair(s: string): Option<(int, int)>
  {
    var k := IndexOf(s, ':');
    if k == |s| then None
    else match (ParseDecimal(s[..k]), ParseDecimal(s[k + 1..]))
      case (Some(a), Some(b)) => Some((a, b))
      case _ => None
  }

  /** Two non-negative decimals joined by ':' are read back. */
  lemma PairRoundTrip(a: nat, b: nat)
    ensures ParseDecimalPair(Decimal(a) + ":" + Decimal(b)) == Some((a, b))
  {
    var s := Decimal(a) + ":" + Decimal(b);
    var da := Decimal(a);
    assert forall i :: 0 <= i < |da| ==> s[i] == da[i] && IsDigit(da[i]);
    assert s[|da|] == ':';
    assert IndexOf(s, ':') == |da|;
    assert s[..|da|] == da;
    assert s[|da| + 1..] == Decimal(b);
    DecimalRoundTrip(a);
    DecimalRoundTrip(b);
  }
}
