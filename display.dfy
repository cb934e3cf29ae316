/**
 * Display of amounts and postings (transaction.go): formatHelper, roundToEven, FormatValue,
 * FormatValueNumber and Posting.String. Amounts are ten-thousandths of a dollar; the display
 * keeps two decimals, rounding on the third with ties to even, as the source intends.
 * Division and remainder are Go's, which truncate toward zero.
 */
module Display {
  import opened Wrappers
  import opened Fmt
  import opened Ledger
  import Text

  /** Go's a / b for b > 0: the quotient truncated toward zero. */
  function Quot(a: int, b: int): (q: int)
    requires b > 0
    ensures a >= 0 ==> q == a / b
    ensures a < 0 ==> q == -((-a) / b)
  {
    if a >= 0 then a / b else -((-a) / b)
  }

  /** Go's a % b for b > 0: the remainder takes the sign of a. */
  function Rem(a: int, b: int): (r: int)
    requires b > 0
    ensures a == b * Quot(a, b) + r
    ensures a >= 0 ==> 0 <= r < b
    ensures a < 0 ==> -b < r <= 0
  {
    a - b * Quot(a, b)
  }

  /**
   * roundToEven(ms, ls): moves ms one step away from zero when the digit ls is above 5, or is 5
   * and ms is odd. An ms of 0 or less moves down, whatever the sign the caller meant.
   */
  function RoundToEven(ms: int, ls: int): int
  {
    var odd := Rem(ms, 2) != 0;
    if ls > 5 || (ls == 5 && odd) then (if ms > 0 then ms + 1 else ms - 1) else ms
  }

  /** formatHelper: whole dollars, then the two cent digits. */
  function FormatHelper(v: int): (int, int, int)
  {
    var ms := Quot(v, 10000);
    var ls0 := Quot(Rem(v, 10000), 100);
    var ls1 := if ls0 < 0 then -ls0 else ls0;
    var ls := RoundToEven(ls1, Quot(Rem(v, 100), 10));
    var (ms', ls') := if ls > 99 then (ms + 1, 0) else (ms, ls);
    (ms', Quot(ls', 10), Rem(ls', 10))
  }

  /** FormatValueNumber: "%v.%v%v" of the three parts. */
  function FormatValueNumber(v: int): string
  {
    var (ms, ls1, ls2) := FormatHelper(v);
    Decimal(ms) + "." + Decimal(ls1) + Decimal(ls2)
  }

  /** FormatValue: the same number behind a dollar sign. */
  function FormatValue(v: int): string
  {
    "$" + FormatValueNumber(v)
  }

  /** The tenth-of-a-cent digit of a non-negative amount, the one roundToEven looks at. */
  function MillDigit(v: nat): nat { (v / 10) % 10 }

  /** Whether roundToEven rounds the cents of a non-negative amount up. */
  predicate RoundsUp(v: nat)
  {
    MillDigit(v) > 5 || (MillDigit(v) == 5 && (v / 100) % 2 == 1)
  }

  /** A non-negative amount in cents, rounded half to even on the mill digit (lower digits ignored). */
  function RoundedCents(v: nat): nat
  {
    v / 100 + (if RoundsUp(v) then 1 else 0)
  }

  /**
   * The case formatHelper gets wrong: the cents are a multiple of a dollar and the mill digit
   * rounds up, so roundToEven(0, d) steps down to -1 instead of up to 1.
   */
  predicate NegativeCentDefect(v: nat)
  {
    (v / 100) % 100 == 0 && MillDigit(v) > 5
  }

  /** Euclidean division is determined by a decomposition v == b * k + t with 0 <= t < b. */
  lemma DivUnique(v: int, b: int, k: int, t: int)
    requires b > 0 && v == b * k + t && 0 <= t < b
    ensures v / b == k && v % b == t
  {
    var k', t' := v / b, v % b;
    assert v == b * k' + t';
    assert b * (k - k') == t' - t;
    if k > k' {
      MulAtLeast(b, k - k');
    } else if k < k' {
      MulAtLeast(b, k' - k);
    }
  }

  lemma MulAtLeast(b: nat, n: int)
    requires n >= 1
    ensures b * n >= b
  {
  }

  /** Digits taken from a remainder: the cents digits and the dollars of a non-negative amount. */
  lemma Nested100(v: nat)
    ensures (v % 10000) / 100 == (v / 100) % 100
    ensures v / 10000 == (v / 100) / 100
  {
    var q := v / 10000;
    var r := v % 10000;
    var s := r / 100;
    var t := r % 100;
    assert v == 10000 * q + r;
    assert r == 100 * s + t;
    assert v == 100 * (100 * q + s) + t;
    DivUnique(v, 100, 100 * q + s, t);
    DivUnique(v / 100, 100, q, s);
  }

  /** The mill digit taken from the remainder modulo 100. */
  lemma Nested10(v: nat)
    ensures (v % 100) / 10 == (v / 10) % 10
  {
    var q := v / 100;
    var r := v % 100;
    var s := r / 10;
    var t := r % 10;
    assert v == 100 * q + r;
    assert r == 10 * s + t;
    assert v == 10 * (10 * q + s) + t;
    DivUnique(v, 10, 10 * q + s, t);
    DivUnique(v / 10, 10, q, s);
  }

  /** The last two digits of a number have its parity. */
  lemma ParityOfLastDigits(c: nat)
    ensures (c % 100) % 2 == c % 2
  {
    var ls := c % 100;
    assert c == 100 * (c / 100) + ls;
    assert ls == 2 * (ls / 2) + ls % 2;
    DivUnique(c, 2, 50 * (c / 100) + ls / 2, ls % 2);
  }

  /** The cents and the mill digit of a non-negative amount, as formatHelper computes them. */
  lemma NonNegativeParts(v: nat)
    ensures Quot(v, 10000) == (v / 100) / 100
    ensures Quot(Rem(v, 10000), 100) == (v / 100) % 100
    ensures Quot(Rem(v, 100), 10) == MillDigit(v)
    ensures Rem((v / 100) % 100, 2) == (v / 100) % 2
  {
    Nested100(v);
    Nested10(v);
    ParityOfLastDigits(v / 100);
  }

  /**
   * For a non-negative amount the three parts spell the amount rounded to the cent, except in
   * the defect case, where the cents come out as the digits 0 and -1.
   */
  lemma FormatHelperNonNegative(v: nat)
    ensures NegativeCentDefect(v) ==> FormatHelper(v) == (v / 10000, 0, -1)
    ensures !NegativeCentDefect(v) ==>
      var (ms, ls1, ls2) := FormatHelper(v);
      0 <= ls1 <= 9 && 0 <= ls2 <= 9 && 100 * ms + 10 * ls1 + ls2 == RoundedCents(v)
  {
    NonNegativeParts(v);
    var c := v / 100;
    var ls := c % 100;
    var r := RoundToEven(ls, MillDigit(v));
    assert r == ls + (if RoundsUp(v) then 1 else 0) || NegativeCentDefect(v);
    assert v / 10000 == c / 100 by {
      Nested100(v);
    }
    assert c == 100 * (c / 100) + ls;
  }

  /**
   * A negative amount is truncated toward zero at the cent: no rounding happens (the mill digit
   * is negative), and the sign survives only in the dollar part.
   */
  lemma FormatHelperNegative(v: int)
    requires v < 0
    ensures
      var (ms, ls1, ls2) := FormatHelper(v);
      ms == -((-v) / 10000) && 0 <= ls1 <= 9 && 0 <= ls2 <= 9 && 10 * ls1 + ls2 == ((-v) / 100) % 100
  {
    var u := -v;
    assert u == 10000 * (u / 10000) + u % 10000;
    assert Rem(v, 10000) == -(u % 10000);
    assert Quot(Rem(v, 10000), 100) == -((u % 10000) / 100);
    assert u == 100 * (u / 100) + u % 100;
    assert Rem(v, 100) == -(u % 100);
    assert Quot(Rem(v, 100), 10) <= 0;
    Nested100(u);
  }

  /** Reads "$w.cd" back: the whole part and the two-digit cents. */
  function ReadValue(s: string): Option<(int, int)>
  {
    if s == [] || s[0] != '$' then None else ReadNumber(s[1..])
  }

  /** Reads "w.cd": an optionally signed whole part, a dot and exactly two digits. */
  function ReadNumber(t: string): Option<(int, int)>
  {
    var k := IndexOf(t, '.');
    if k == |t| || |t| != k + 3 || !IsDigit(t[k + 1]) || !IsDigit(t[k + 2]) then None
    else match ParseDecimal(t[..k])
      case Some(w) => Some((w, 10 * DigitValue(t[k + 1]) + DigitValue(t[k + 2])))
      case None => None
  }

  lemma DecimalDigit(d: int)
    requires 0 <= d <= 9
    ensures Decimal(d) == [DigitChar(d)]
  {
  }

  lemma DecimalNoDot(i: int)
    ensures '.' !in Decimal(i)
  {
    var r := Decimal(i);
    if i < 0 {
      assert r == "-" + NatDecimal(-i);
    }
    var n := NatDecimal(if i < 0 then -i else i);
    assert forall j :: 0 <= j < |n| ==> IsDigit(n[j]);
  }

  /** The text of two parts with single-digit cents reads back as those parts. */
  lemma ReadParts(ms: int, ls1: int, ls2: int)
    requires 0 <= ls1 <= 9 && 0 <= ls2 <= 9
    ensures ReadNumber(Decimal(ms) + "." + Decimal(ls1) + Decimal(ls2)) == Some((ms, 10 * ls1 + ls2))
  {
    DecimalDigit(ls1);
    DecimalDigit(ls2);
    var dm := Decimal(ms);
    var t := Decimal(ms) + "." + Decimal(ls1) + Decimal(ls2);
    assert t == dm + "." + [DigitChar(ls1)] + [DigitChar(ls2)];
    DecimalNoDot(ms);
    assert forall j :: 0 <= j < |dm| ==> t[j] == dm[j];
    IndexOfIs(t, '.', |dm|);
    assert t[..|dm|] == dm;
    DecimalRoundTrip(ms);
  }

  /** The text of the defect case does not read back: three characters follow the dot. */
  lemma ReadDefect(ms: int)
    ensures ReadNumber(Decimal(ms) + "." + Decimal(0) + Decimal(-1)) == None
  {
    var dm := Decimal(ms);
    var t := Decimal(ms) + "." + Decimal(0) + Decimal(-1);
    assert Decimal(0) == "0" && Decimal(-1) == "-1";
    assert |t| == |dm| + 4 && t[|dm|] == '.';
    DecimalNoDot(ms);
    assert forall j :: 0 <= j < |dm| ==> t[j] == dm[j];
    IndexOfIs(t, '.', |dm|);
  }

  /**
   * FormatValue of a non-negative amount reads back as the amount rounded to the cent, and reads
   * back at all exactly when the amount is not in the defect case.
   */
  lemma FormatValueRoundTrip(v: nat)
    ensures !NegativeCentDefect(v) ==> ReadValue(FormatValue(v)) == Some((RoundedCents(v) / 100, RoundedCents(v) % 100))
    ensures NegativeCentDefect(v) ==> ReadValue(FormatValue(v)) == None
  {
    var (ms, ls1, ls2) := FormatHelper(v);
    assert FormatValueNumber(v) == Decimal(ms) + "." + Decimal(ls1) + Decimal(ls2);
    assert FormatValue(v)[1..] == FormatValueNumber(v);
    if !NegativeCentDefect(v) {
      FormatHelperCents(v);
      ReadParts(ms, ls1, ls2);
    } else {
      FormatHelperNonNegative(v);
      ReadDefect(ms);
    }
  }

  /** Outside the defect case the dollars and the cents of the rounded amount. */
  lemma FormatHelperCents(v: nat)
    requires !NegativeCentDefect(v)
    ensures var (ms, ls1, ls2) := FormatHelper(v);
      && 0 <= ls1 <= 9 && 0 <= ls2 <= 9
      && ms == RoundedCents(v) / 100 && 10 * ls1 + ls2 == RoundedCents(v) % 100
  {
    FormatHelperNonNegative(v);
    var (ms, ls1, ls2) := FormatHelper(v);
    DivUnique(RoundedCents(v), 100, ms, 10 * ls1 + ls2);
  }

  /** The parts formatHelper computes for six mills: the rounding carries the cents to -1. */
  lemma FormatHelperSixMills()
    ensures FormatHelper(60) == (0, 0, -1)
  {
    SixMillsDigits();
    MinusOneDigits();
  }

  /** Go's divisions of 60 that formatHelper performs. */
  lemma SixMillsDigits()
    ensures Quot(60, 10000) == 0 && Rem(60, 10000) == 60
    ensures Quot(60, 100) == 0 && Rem(60, 100) == 60 && Quot(60, 10) == 6
  {
  }

  /** Go's -1 / 10 and -1 % 10. */
  lemma MinusOneDigits()
    ensures Quot(-1, 10) == 0 && Rem(-1, 10) == -1
  {
  }

  /** The smallest amount that shows the defect: six mills print as "$0.0-1". */
  lemma FormatValueSixMills()
    ensures FormatValue(60) == "$0.0-1"
  {
    FormatHelperSixMills();
    assert Decimal(0) == "0" && Decimal(-1) == "-1";
    assert FormatValueNumber(60) == "0" + "." + "0" + "-1";
  }

  /** Amounts between -1 and 0 dollars lose their sign: no '-' appears in their text. */
  lemma FormatValueLosesSign(v: int)
    requires -10000 < v < 0
    ensures '-' !in FormatValue(v)
    ensures FormatValue(v)[..3] == "$0."
  {
    FormatHelperNegative(v);
    var (ms, ls1, ls2) := FormatHelper(v);
    assert ms == 0;
    DecimalDigit(ls1);
    DecimalDigit(ls2);
    assert FormatValue(v) == "$0." + [DigitChar(ls1)] + [DigitChar(ls2)];
  }

  /** A negative amount of six mills loses its sign and its rounding: it prints as zero. */
  lemma FormatValueMinusSixMills()
    ensures FormatValue(-60) == "$0.00"
  {
    assert FormatHelper(-60) == (0, 0, 0);
    assert Decimal(0) == "0";
  }

  /** A negative amount is cut at the cent instead of rounded: -$1.506 prints as "$-1.50". */
  lemma FormatValueTruncates()
    ensures FormatValue(-15060) == "$-1.50"
  {
    assert FormatHelper(-15060) == (-1, 5, 0);
    assert Decimal(-1) == "-1" && Decimal(5) == "5" && Decimal(0) == "0";
  }

  // The formatter its doc comment describes: every amount, whatever its sign, rounded half to
  // even at the cent, and a '-' for every amount that rounds to a negative number of cents.

  /** The amount in cents rounded half to even on the mill digit, with the amount's sign. */
  function SignedRoundedCents(v: int): int
  {
    if v < 0 then 0 - RoundedCents(-v) as int else RoundedCents(v)
  }

  /** A number of cents as dollars, '.', and two cent digits. */
  function CentsText(c: nat): string
  {
    Decimal(c / 100) + "." + [DigitChar((c % 100) / 10), DigitChar((c % 100) % 10)]
  }

  /** FormatValue as intended: "$", a '-' for a negative result, then the rounded magnitude. */
  function FormatValueFixed(v: int): string
  {
    var c := RoundedCents(if v < 0 then -v else v);
    "$" + (if v < 0 && c > 0 then "-" else "") + CentsText(c)
  }

  /** Reads "$w.cd" or "$-w.cd" back as a signed number of cents. */
  function ReadCents(s: string): Option<int>
  {
    if |s| >= 2 && s[0] == '$' && s[1] == '-' then
      match ReadNumber(s[2..])
      case Some((w, c)) => Some(-(100 * w + c))
      case None => None
    else
      match ReadValue(s)
      case Some((w, c)) => Some(100 * w + c)
      case None => None
  }

  /** CentsText reads back as the dollars and the cents of c and holds no '-'. */
  lemma CentsTextRead(c: nat)
    ensures ReadNumber(CentsText(c)) == Some((c / 100, c % 100))
    ensures CentsText(c)[0] != '-' && '-' !in CentsText(c)
  {
    var d1, d2 := (c % 100) / 10, (c % 100) % 10;
    DecimalDigit(d1);
    DecimalDigit(d2);
    var dm := Decimal(c / 100);
    var t := CentsText(c);
    assert t == dm + "." + Decimal(d1) + Decimal(d2);
    ReadParts(c / 100, d1, d2);
    assert forall j :: 0 <= j < |dm| ==> IsDigit(dm[j]);
    assert forall j :: 0 <= j < |t| ==> t[j] != '-' by {
      forall j | 0 <= j < |t| ensures t[j] != '-' {
        if j < |dm| {
          assert t[j] == dm[j];
        }
      }
    }
  }

  /** A non-negative count of cents behind "$" or "$-" reads back with that sign. */
  lemma SignedTextRead(c: nat, neg: bool)
    ensures var s := "$" + (if neg then "-" else "") + CentsText(c);
      && ReadCents(s) == Some(if neg then 0 - c as int else c as int)
      && ('-' in s <==> neg)
  {
    var t := CentsText(c);
    var s := "$" + (if neg then "-" else "") + t;
    CentsTextRead(c);
    assert c == 100 * (c / 100) + c % 100;
    if neg {
      assert s[1] == '-' && s[2..] == t;
    } else {
      assert s[1..] == t && s[1] == t[0];
    }
  }

  /** The corrected formatter reads back as the amount rounded to the cent, sign included. */
  lemma FormatValueFixedRoundTrip(v: int)
    ensures ReadCents(FormatValueFixed(v)) == Some(SignedRoundedCents(v))
    ensures '-' in FormatValueFixed(v) <==> SignedRoundedCents(v) < 0
  {
    var c := RoundedCents(if v < 0 then -v else v);
    SignedTextRead(c, v < 0 && c > 0);
  }

  /** Outside the defect case the corrected formatter prints non-negative amounts as FormatValue does. */
  lemma FormatValueFixedAgrees(v: nat)
    requires !NegativeCentDefect(v)
    ensures FormatValueFixed(v) == FormatValue(v)
  {
    FormatHelperCents(v);
    var (ms, ls1, ls2) := FormatHelper(v);
    var c := RoundedCents(v);
    DivUnique(c % 100, 10, ls1, ls2);
    DecimalDigit(ls1);
    DecimalDigit(ls2);
    assert FormatValue(v) == "$" + Decimal(ms) + "." + Decimal(ls1) + Decimal(ls2);
    assert CentsText(c) == Decimal(ms) + "." + Decimal(ls1) + Decimal(ls2);
  }

  /** The clear indicator Posting.String writes first. */
  function StatusPrefix(s: Status): string
  {
    match s
    case StatusClear => "* "
    case StatusPending => "! "
    case StatusUndefined => ""
  }

  /** Posting.String: the line with the amount rendered by FormatValue. */
  function PostingString(p: Posting): string
  {
    PostingLine(p, FormatValue(p.value))
  }

  /** The posting line around an already formatted amount. */
  function PostingLine(p: Posting, amount: string): string
  {
    var body :=
      if !p.isNull then Text.PadRight(p.account, 50) + (if p.value >= 0 then " " else "") + amount
      else p.account;
    StatusPrefix(p.status) + body + (if p.note != "" then " ; " + p.note else "")
  }

  lemma FormatValueDollar(v: int)
    ensures FormatValue(v) != [] && FormatValue(v)[0] == '$'
  {
  }

  /**
   * The layout of a posting line that carries an amount: the indicator, the account, blanks up
   * to column 50, one more blank for a non-negative amount, then the dollar sign; without a
   * note the line ends with the amount.
   */
  lemma PostingLayout(p: Posting)
    requires !p.isNull
    ensures var r := PostingString(p); var pre := StatusPrefix(p.status);
      var dollar := |pre| + |Text.PadRight(p.account, 50)| + (if p.value >= 0 then 1 else 0);
      && dollar < |r|
      && r[..|pre|] == pre
      && r[|pre|..|pre| + |p.account|] == p.account
      && (forall i :: |pre| + |p.account| <= i < dollar ==> r[i] == ' ')
      && r[dollar] == '$'
      && (p.note == "" ==> r[dollar..] == FormatValue(p.value))
  {
    FormatValueDollar(p.value);
    LineLayout(p, FormatValue(p.value));
  }

  lemma LineLayout(p: Posting, amount: string)
    requires !p.isNull && amount != [] && amount[0] == '$'
    ensures var r := PostingLine(p, amount); var pre := StatusPrefix(p.status);
      var dollar := |pre| + |Text.PadRight(p.account, 50)| + (if p.value >= 0 then 1 else 0);
      && dollar < |r|
      && r[..|pre|] == pre
      && r[|pre|..|pre| + |p.account|] == p.account
      && (forall i :: |pre| + |p.account| <= i < dollar ==> r[i] == ' ')
      && r[dollar] == '$'
      && (p.note == "" ==> r[dollar..] == amount)
  {
    var pre := StatusPrefix(p.status);
    var note := if p.note != "" then " ; " + p.note else "";
    var pad := Text.PadRight(p.account, 50);
    var sp := if p.value >= 0 then " " else "";
    Layout(PostingLine(p, amount), pre, p.account, pad, sp, amount, note);
  }

  lemma Layout(r: string, pre: string, account: string, pad: string, sp: string, fv: string, note: string)
    requires r == (pre + ((pad + sp) + fv)) + note
    requires pad == Text.PadRight(account, 50)
    requires forall i :: 0 <= i < |sp| ==> sp[i] == ' '
    requires fv != [] && fv[0] == '$'
    ensures var dollar := |pre| + |pad| + |sp|;
      && dollar < |r|
      && r[..|pre|] == pre
      && r[|pre|..|pre| + |account|] == account
      && (forall i :: |pre| + |account| <= i < dollar ==> r[i] == ' ')
      && r[dollar] == '$'
      && (note == "" ==> r[dollar..] == fv)
  {
    var dollar := |pre| + |pad| + |sp|;
    assert forall i :: 0 <= i < |pre| ==> r[i] == pre[i];
    assert r[..|pre|] == pre;
    assert forall i :: 0 <= i < |account| ==> r[|pre| + i] == pad[i] == account[i];
    assert r[|pre|..|pre| + |account|] == account;
    forall i | |pre| + |account| <= i < dollar ensures r[i] == ' ' {
      if i < |pre| + |pad| {
        assert r[i] == pad[i - |pre|];
      } else {
        assert r[i] == sp[i - |pre| - |pad|];
      }
    }
    assert r[dollar] == fv[0];
    if note == "" {
      assert forall i :: 0 <= i < |fv| ==> r[dollar + i] == fv[i];
      assert r[dollar..] == fv;
    }
  }

  /** A Null posting prints its account alone after the indicator, then the note. */
  lemma NullPostingLayout(p: Posting)
    requires p.isNull
    ensures PostingString(p) == StatusPrefix(p.status) + p.account + (if p.note != "" then " ; " + p.note else "")
  {
  }

  /** A note is always the tail of the line, after " ; ". */
  lemma PostingNote(p: Posting)
    requires p.note != ""
    ensures var r := PostingString(p);
      |r| >= 3 + |p.note| && r[|r| - |p.note| - 3..] == " ; " + p.note
  {
  }
}
