/**
 * The ledger parser of parse/parse.go over the CharReader of parse/lexer.go.
 *
 * Each step of the parser has a specification function over the reader's abstract state
 * (a Chars.Cursor) that follows the Go code branch by branch, and a method that drives a
 * Lexer.CharReader as the Go code does and is proved to agree with that function. The lemmas
 * state what the grammar accepts in terms of the input characters.
 */
module Parser {
  import opened Wrappers
  import opened Chars
  import opened Ledger
  import Text
  import Lexer

  /**
   * The errors of parse/errors.go, each with the line the reader was on, plus the two outcomes
   * that are not parse errors in Go: the error time.Parse returns for a month or day out of
   * range, and the amount loop that never ends when a ',' is the last character of the input.
   */
  datatype ParseError =
    | ErrBadDate(line: int)
    | ErrBadAmount(line: int)
    | ErrUnexpectedEnd(line: int)
    | ErrMalformed(line: int)
    | ErrMalformedTagLine(line: int)
    | TimeParseError
    | AmountNeverEnds(line: int)

  /** What a parsing step leaves: its value and the reader after it. */
  datatype Parsed<T> = Parsed(value: T, cur: Cursor)

  /** A method's result and final reader agree with a step's specification. */
  predicate Agrees<T(==)>(r: Result<T, ParseError>, cur: Cursor, s: Result<Parsed<T>, ParseError>)
  {
    match s
    case Err(e) => r == Err(e)
    case Ok(p) => r == Ok(p.value) && cur == p.cur
  }

  /**
   * The chars argument of the digit reads, "0123456789", built by index so that membership
   * in it is a range check rather than ten cases.
   */
  function Digits(): seq<char>
  {
    seq(10, i requires 0 <= i < 10 => ('0' as int + i) as char)
  }
  const Blanks := " \t"
  const DateSeparators := "/-."

  predicate IsDigit(c: char) { '0' <= c <= '9' }

  predicate AllDigits(s: seq<char>) { forall i :: 0 <= i < |s| ==> IsDigit(s[i]) }

  predicate IsBlank(c: char) { c == ' ' || c == '\t' }

  lemma DigitsText()
    ensures Digits() == "0123456789"
  {
  }

  lemma DigitsMember(c: char)
    ensures c in Digits() <==> IsDigit(c)
  {
    if IsDigit(c) {
      assert Digits()[c as int - '0' as int] == c;
    }
  }

  /** The number an ASCII digit string spells in decimal. */
  function DigitsValue(s: seq<char>): nat
  {
    if s == [] then 0
    else
      var d := s[|s| - 1] as int - '0' as int;
      DigitsValue(s[..|s| - 1]) * 10 + (if 0 <= d <= 9 then d else 0)
  }

  // ---------------------------------------------------------------------------------------
  // ParseDate

  /**
   * time.Parse("2006/01/02", s): four, two and two decimal digits separated by '/', with the
   * month and the day in range for the year.
   */
  function TimeParse(s: string): (r: Result<Date, ParseError>)
    ensures r.Ok? ==> ValidDate(r.value.year, r.value.month, r.value.day)
  {
    if |s| == 10 && s[4] == '/' && s[7] == '/' && AllDigits(s[..4]) && AllDigits(s[5..7]) && AllDigits(s[8..]) then
      var y, m, d := DigitsValue(s[..4]), DigitsValue(s[5..7]), DigitsValue(s[8..]);
      if ValidDate(y, m, d) then Ok(Date(y, m, d)) else Err(TimeParseError)
    else Err(TimeParseError)
  }

  /** One digit field: ReadMatchLimit of n digits, then the flag check and the EOF check. */
  function DateField(cur: Cursor, n: nat): (r: Result<Parsed<seq<char>>, ParseError>)
    ensures r.Ok? ==> |r.value.cur.rest| <= |cur.rest| && (cur.Valid() ==> r.value.cur.Valid())
  {
    var k := LimitCount(cur.rest, Digits(), n);
    var after := Skip(cur, k);
    if !LimitHit(cur.rest, Digits(), n) then Err(ErrBadDate(after.line))
    else if after.rest == [] then Err(ErrUnexpectedEnd(after.line))
    else Ok(Parsed(cur.rest[..k], after))
  }

  /** A separator from "/-.", which the parser replaces by '/'. */
  function DateSeparator(cur: Cursor): (r: Result<Cursor, ParseError>)
    ensures r.Ok? ==> |r.value.rest| < |cur.rest| && (cur.Valid() ==> r.value.Valid())
  {
    if cur.rest != [] && cur.rest[0] in DateSeparators then Ok(Next(cur)) else Err(ErrBadDate(cur.line))
  }

  /** ParseDate: yyyy, a separator, mm, a separator, dd; then time.Parse of the normalised text. */
  function DateSpec(cur: Cursor): (r: Result<Parsed<Date>, ParseError>)
    ensures r.Ok? ==> |r.value.cur.rest| < |cur.rest| && (cur.Valid() ==> r.value.cur.Valid())
  {
    match DateField(cur, 4)
    case Err(e) => Err(e)
    case Ok(y) =>
      match DateSeparator(y.cur)
      case Err(e) => Err(e)
      case Ok(c1) => MonthDay(y.value, c1)
  }

  /** ParseDate from the month on, with the year's digits read. */
  function MonthDay(year: seq<char>, cur: Cursor): (r: Result<Parsed<Date>, ParseError>)
    ensures r.Ok? ==> |r.value.cur.rest| < |cur.rest| && (cur.Valid() ==> r.value.cur.Valid())
  {
    match DateField(cur, 2)
    case Err(e) => Err(e)
    case Ok(m) =>
      match DateSeparator(m.cur)
      case Err(e) => Err(e)
      case Ok(c2) => Day(year, m.value, c2)
  }

  /** ParseDate from the day on, with the year's and the month's digits read. */
  function Day(year: seq<char>, month: seq<char>, cur: Cursor): (r: Result<Parsed<Date>, ParseError>)
    ensures r.Ok? ==> |r.value.cur.rest| <= |cur.rest| && (cur.Valid() ==> r.value.cur.Valid())
  {
    match DateField(cur, 2)
    case Err(e) => Err(e)
    case Ok(d) =>
      match TimeParse(year + "/" + month + "/" + d.value)
      case Err(e) => Err(e)
      case Ok(t) => Ok(Parsed(t, d.cur))
  }

  lemma DateFieldSpec(cur: Cursor, n: nat)
    requires cur.Valid() && n > 0
    ensures DateField(cur, n).Ok? <==> |cur.rest| > n && AllDigits(cur.rest[..n])
    ensures DateField(cur, n).Ok? ==> DateField(cur, n).value == Parsed(cur.rest[..n], Skip(cur, n))
    ensures DateField(cur, n).Err? ==> DateField(cur, n).error.ErrBadDate?
  {
    var s := cur.rest;
    var k := SpanIn(s, Digits());
    if |s| > n && AllDigits(s[..n]) {
      assert forall i :: 0 <= i < n ==> s[i] in Digits() by {
        forall i | 0 <= i < n
          ensures s[i] in Digits()
        {
          assert s[..n][i] == s[i];
          DigitsMember(s[i]);
        }
      }
    } else if |s| > n {
      var i :| 0 <= i < n && !IsDigit(s[..n][i]);
      DigitsMember(s[i]);
      assert s[i] !in Digits();
      assert k <= i;
    }
  }

  /** The text a well-formed date occupies: yyyy, a separator, mm, a separator, dd. */
  predicate DateShape(s: seq<char>)
  {
    && |s| >= 10
    && AllDigits(s[..4]) && s[4] in DateSeparators
    && AllDigits(s[5..7]) && s[7] in DateSeparators
    && AllDigits(s[8..10])
  }

  lemma DayGrammar(year: seq<char>, month: seq<char>, cur: Cursor)
    requires cur.Valid() && |year| == 4 && |month| == 2 && AllDigits(year) && AllDigits(month)
    ensures Day(year, month, cur).Ok? <==>
      |cur.rest| > 2 && AllDigits(cur.rest[..2]) && ValidDate(DigitsValue(year), DigitsValue(month), DigitsValue(cur.rest[..2]))
    ensures Day(year, month, cur).Ok? ==>
      Day(year, month, cur).value == Parsed(Date(DigitsValue(year), DigitsValue(month), DigitsValue(cur.rest[..2])), Skip(cur, 2))
    ensures Day(year, month, cur).Err? ==> Day(year, month, cur).error.ErrBadDate? || Day(year, month, cur).error.TimeParseError?
  {
    DateFieldSpec(cur, 2);
    if DateField(cur, 2).Ok? {
      var text := year + "/" + month + "/" + cur.rest[..2];
      assert text[..4] == year && text[5..7] == month && text[8..] == cur.rest[..2];
    }
  }

  /** The day seen from the reader past the month's separator. */
  lemma DaySlice(s: seq<char>, r: seq<char>)
    requires |s| >= 5 && r == s[3..]
    ensures r[..2] == s[3..5]
  {
  }

  lemma MonthDayGrammar(year: seq<char>, cur: Cursor)
    requires cur.Valid() && |year| == 4 && AllDigits(year)
    ensures MonthDay(year, cur).Ok? <==>
      && |cur.rest| > 5 && AllDigits(cur.rest[..2]) && cur.rest[2] in DateSeparators && AllDigits(cur.rest[3..5])
      && ValidDate(DigitsValue(year), DigitsValue(cur.rest[..2]), DigitsValue(cur.rest[3..5]))
    ensures MonthDay(year, cur).Ok? ==>
      MonthDay(year, cur).value == Parsed(Date(DigitsValue(year), DigitsValue(cur.rest[..2]), DigitsValue(cur.rest[3..5])), Skip(cur, 5))
    ensures MonthDay(year, cur).Err? ==> MonthDay(year, cur).error.ErrBadDate? || MonthDay(year, cur).error.TimeParseError?
  {
    var s := cur.rest;
    DateFieldSpec(cur, 2);
    if DateField(cur, 2).Err? {
      return;
    }
    var c0 := Skip(cur, 2);
    if DateSeparator(c0).Err? {
      return;
    }
    var c1 := Next(c0);
    assert c1 == Skip(cur, 3) by {
      NextSkip(c0);
      SkipSkip(cur, 2, 1);
    }
    assert MonthDay(year, cur) == Day(year, s[..2], c1);
    DayGrammar(year, s[..2], c1);
    if |s| >= 5 {
      DaySlice(s, c1.rest);
    }
    assert Skip(c1, 2) == Skip(cur, 5) by {
      SkipSkip(cur, 3, 2);
    }
  }

  /** The month and the day seen from the reader past the year's separator. */
  lemma DateTailSlices(s: seq<char>, r: seq<char>)
    requires |s| > 10 && r == s[5..]
    ensures r[..2] == s[5..7] && r[2] == s[7] && r[3..5] == s[8..10]
  {
  }

  /**
   * ParseDate accepts exactly a date shape followed by at least one more character (a date
   * that ends the input is ErrBadDate), whatever its separators, and a valid calendar day. The
   * reader then stands just past the day. Its EOF checks never fire: every failure is ErrBadDate
   * or time.Parse's error.
   */
  lemma DateGrammar(cur: Cursor)
    requires cur.Valid()
    ensures DateSpec(cur).Ok? <==>
      && |cur.rest| > 10 && DateShape(cur.rest)
      && ValidDate(DigitsValue(cur.rest[..4]), DigitsValue(cur.rest[5..7]), DigitsValue(cur.rest[8..10]))
    ensures DateSpec(cur).Ok? ==>
      && DateSpec(cur).value.value == Date(DigitsValue(cur.rest[..4]), DigitsValue(cur.rest[5..7]), DigitsValue(cur.rest[8..10]))
      && DateSpec(cur).value.cur == Skip(cur, 10)
    ensures DateSpec(cur).Err? ==> DateSpec(cur).error.ErrBadDate? || DateSpec(cur).error.TimeParseError?
  {
    var s := cur.rest;
    DateFieldSpec(cur, 4);
    if DateField(cur, 4).Err? {
      return;
    }
    var c0 := Skip(cur, 4);
    if DateSeparator(c0).Err? {
      return;
    }
    var c1 := Next(c0);
    assert c1 == Skip(cur, 5) by {
      NextSkip(c0);
      SkipSkip(cur, 4, 1);
    }
    assert DateSpec(cur) == MonthDay(s[..4], c1);
    if |s| <= 10 {
      MonthDayGrammar(s[..4], c1);
      return;
    }
    var y, m, d := DigitsValue(s[..4]), DigitsValue(s[5..7]), DigitsValue(s[8..10]);
    assert
      && (MonthDay(s[..4], c1).Ok? <==>
            AllDigits(s[5..7]) && s[7] in DateSeparators && AllDigits(s[8..10]) && ValidDate(y, m, d))
      && (MonthDay(s[..4], c1).Ok? ==> MonthDay(s[..4], c1).value == Parsed(Date(y, m, d), Skip(cur, 10)))
      && (MonthDay(s[..4], c1).Err? ==> MonthDay(s[..4], c1).error.ErrBadDate? || MonthDay(s[..4], c1).error.TimeParseError?)
    by {
      MonthDayGrammar(s[..4], c1);
      DateTailSlices(s, c1.rest);
      SkipSkip(cur, 5, 5);
    }
  }

  /** ReadDateField's result: the digits appended to date, or the error of DateField. */
  predicate FieldRead(r: Result<seq<char>, ParseError>, cur: Cursor, date: seq<char>, f: Result<Parsed<seq<char>>, ParseError>)
  {
    && (f.Err? ==> r == Err(f.error))
    && (f.Ok? ==> r == Ok(date + f.value.value) && cur == f.value.cur)
  }

  /** One ReadMatchLimit of ParseDate with its two checks, appending the digits to date. */
  method ReadDateField(cr: Lexer.CharReader, date: seq<char>, n: nat) returns (r: Result<seq<char>, ParseError>)
    requires cr.Valid()
    modifies cr
    ensures cr.Valid()
    ensures FieldRead(r, cr.State(), date, DateField(old(cr.State()), n))
  {
    ghost var f := DateField(cr.State(), n);
    var ok, out := cr.ReadMatchLimit(Digits(), date, n);
    assert ok <==> !(f.Err? && f.error.ErrBadDate?);
    if !ok {
      return Err(ErrBadDate(cr.L));
    }
    if cr.EOF {
      return Err(ErrUnexpectedEnd(cr.L));
    }
    return Ok(out);
  }

  /** A separator check of ParseDate: the separator is replaced by '/'. */
  method ReadDateSeparator(cr: Lexer.CharReader, date: seq<char>) returns (r: Result<seq<char>, ParseError>)
    requires cr.Valid()
    modifies cr
    ensures cr.Valid()
    ensures var f := DateSeparator(old(cr.State()));
      && (f.Err? ==> r == Err(f.error))
      && (f.Ok? ==> r == Ok(date + "/") && cr.State() == f.value)
  {
    if !cr.Match(DateSeparators) {
      return Err(ErrBadDate(cr.L));
    }
    cr.Next();
    return Ok(date + ['/']);
  }

  /** ParseDate. */
  method ParseDate(cr: Lexer.CharReader) returns (r: Result<Date, ParseError>)
    requires cr.Valid()
    modifies cr
    ensures cr.Valid()
    ensures Agrees(r, cr.State(), DateSpec(old(cr.State())))
  {
    ghost var start := cr.State();
    var date := [];
    var year := ReadDateField(cr, date, 4);
    if year.Err? {
      return Err(year.error);
    }
    ghost var y := DateField(start, 4).value;
    assert year.value == y.value by {
      assert [] + y.value == y.value;
    }
    var c1 := ReadDateSeparator(cr, year.value);
    if c1.Err? {
      return Err(c1.error);
    }
    ghost var s1 := DateSeparator(y.cur).value;
    var month := ReadDateField(cr, c1.value, 2);
    if month.Err? {
      return Err(month.error);
    }
    ghost var m := DateField(s1, 2).value;
    var c2 := ReadDateSeparator(cr, month.value);
    if c2.Err? {
      return Err(c2.error);
    }
    ghost var s2 := DateSeparator(m.cur).value;
    var day := ReadDateField(cr, c2.value, 2);
    if day.Err? {
      return Err(day.error);
    }
    ghost var d := DateField(s2, 2).value;
    assert c1.value == y.value + "/";
    assert month.value == y.value + "/" + m.value;
    assert c2.value == y.value + "/" + m.value + "/";
    assert day.value == y.value + "/" + m.value + "/" + d.value;
    r := TimeParse(day.value);
    assert Day(y.value, m.value, s2) == if r.Ok? then Ok(Parsed(r.value, d.cur)) else Err(r.error);
  }

  // ---------------------------------------------------------------------------------------
  // ReadUntilTrimmed

  /** The trailing trim loop: drops blanks from the end, but never the first character. */
  function TrimTrailing(ln: seq<char>): (r: seq<char>)
    ensures |r| <= |ln|
  {
    if |ln| > 1 && IsBlank(ln[|ln| - 1]) then TrimTrailing(ln[..|ln| - 1]) else ln
  }

  /**
   * The leading trim loop: drops blanks from the front while its counter i, which goes up as
   * the line gets shorter, stays below the length.
   */
  function TrimLeading(ln: seq<char>, i: nat): (r: seq<char>)
    ensures |r| <= |ln|
    decreases |ln|
  {
    if i < |ln| && IsBlank(ln[0]) then TrimLeading(ln[1..], i + 1) else ln
  }

  /**
   * The trailing trim keeps a prefix: it removes only blanks, keeps at least one character, and
   * stops at a non-blank last character.
   */
  lemma {:induction false} TrimTrailingSpec(ln: seq<char>)
    ensures var r := TrimTrailing(ln);
      && r == ln[..|r|]
      && (ln != [] ==> |r| >= 1)
      && (forall k :: |r| <= k < |ln| ==> IsBlank(ln[k]))
      && (|r| > 1 ==> !IsBlank(r[|r| - 1]))
  {
    if |ln| > 1 && IsBlank(ln[|ln| - 1]) {
      var p := ln[..|ln| - 1];
      TrimTrailingSpec(p);
      var r := TrimTrailing(p);
      assert r == ln[..|r|];
    }
  }

  /**
   * The leading trim keeps a suffix: it removes only blanks, at most d of them where the
   * counter reaches the shrinking length, and stops at a non-blank first character otherwise.
   */
  lemma {:induction false} TrimLeadingSpec(ln: seq<char>, i: nat)
    ensures var r := TrimLeading(ln, i);
      && var d := |ln| - |r|;
      && 0 <= d && r == ln[d..]
      && (forall k :: 0 <= k < d ==> IsBlank(ln[k]))
      && (d > 0 ==> i + d <= |r| + 1)
      && (i + d < |r| ==> !IsBlank(r[0]))
    decreases |ln|
  {
    if i < |ln| && IsBlank(ln[0]) {
      TrimLeadingSpec(ln[1..], i + 1);
      var r := TrimLeading(ln[1..], i + 1);
      assert ln[1..][|ln[1..]| - |r|..] == ln[|ln| - |r|..];
    }
  }

  /** ReadUntilTrimmed: ReadUntil, then the two trim loops; EOF before a terminator is an error. */
  function ReadUntilTrimmedSpec(cur: Cursor, chars: seq<char>): Result<Parsed<string>, ParseError>
  {
    var after := EatUntilSpec(cur, chars);
    if after.rest == [] then Err(ErrUnexpectedEnd(after.line))
    else Ok(Parsed(TrimLeading(TrimTrailing(cur.rest[..SpanNotIn(cur.rest, chars)]), 0), after))
  }

  predicate AllBlank(s: seq<char>) { forall i :: 0 <= i < |s| ==> IsBlank(s[i]) }

  lemma TrimTrailingSlice(ln: seq<char>)
    ensures var t := TrimTrailing(ln); t == ln[..|t|] && AllBlank(ln[|t|..])
  {
    var t := TrimTrailing(ln);
    TrimTrailingSpec(ln);
    forall j | 0 <= j < |ln| - |t|
      ensures IsBlank(ln[|t|..][j])
    {
      assert ln[|t|..][j] == ln[|t| + j];
    }
  }

  lemma TrimLeadingSlice(t: seq<char>)
    ensures var r := TrimLeading(t, 0); r == t[|t| - |r|..] && AllBlank(t[..|t| - |r|])
  {
    var r := TrimLeading(t, 0);
    var a := |t| - |r|;
    TrimLeadingSpec(t, 0);
    forall j | 0 <= j < a
      ensures IsBlank(t[..a][j])
    {
      assert t[..a][j] == t[j];
    }
  }

  /** A suffix of a prefix, cut at blanks on both sides, is a slice cut at blanks. */
  lemma BlankCutSlice(ln: seq<char>, t: seq<char>, r: seq<char>, a: nat, b: nat)
    requires b == |t| <= |ln| && t == ln[..b] && AllBlank(ln[b..])
    requires a + |r| == b && r == t[a..] && AllBlank(t[..a])
    ensures a <= b <= |ln| && r == ln[a..b] && AllBlank(ln[..a]) && AllBlank(ln[b..])
  {
    assert ln[..a] == t[..a];
  }

  /** Both trim loops together keep a slice of the line and cut only blanks from its ends. */
  lemma TrimSlice(ln: seq<char>)
    ensures var r := TrimLeading(TrimTrailing(ln), 0);
      exists a, b :: 0 <= a <= b <= |ln| && r == ln[a..b] && AllBlank(ln[..a]) && AllBlank(ln[b..])
  {
    var t := TrimTrailing(ln);
    var r := TrimLeading(t, 0);
    TrimTrailingSlice(ln);
    TrimLeadingSlice(t);
    var a: nat, b: nat := |t| - |r|, |t|;
    BlankCutSlice(ln, t, r, a, b);
  }

  /**
   * ReadUntilTrimmed succeeds iff a terminator occurs; the reader then stands on the first one,
   * and the text is a slice of the characters before it with only blanks cut from its ends.
   */
  lemma ReadUntilTrimmedGrammar(cur: Cursor, chars: seq<char>)
    requires cur.Valid()
    ensures ReadUntilTrimmedSpec(cur, chars).Ok? <==> exists i :: 0 <= i < |cur.rest| && cur.rest[i] in chars
    ensures ReadUntilTrimmedSpec(cur, chars).Ok? ==>
      var p := ReadUntilTrimmedSpec(cur, chars).value;
      var ln := cur.rest[..SpanNotIn(cur.rest, chars)];
      && p.cur == Skip(cur, |ln|) && p.cur.rest[0] in chars
      && (forall j :: 0 <= j < |ln| ==> ln[j] !in chars)
      && (exists a, b :: 0 <= a <= b <= |ln| && p.value == ln[a..b] && AllBlank(ln[..a]) && AllBlank(ln[b..]))
  {
    var s := cur.rest;
    var k := SpanNotIn(s, chars);
    if exists i :: 0 <= i < |s| && s[i] in chars {
      var i :| 0 <= i < |s| && s[i] in chars;
      assert k <= i;
      TrimSlice(s[..k]);
    }
  }

  /** The trailing trim loop of ReadUntilTrimmed. */
  method TrimTrailingLoop(ln0: seq<char>) returns (ln: seq<char>)
    ensures ln == TrimTrailing(ln0)
  {
    ln := ln0;
    var i := |ln| - 1;
    while i > 0
      invariant i == |ln| - 1
      invariant TrimTrailing(ln) == TrimTrailing(ln0)
    {
      if ln[i] != ' ' && ln[i] != '\t' {
        break;
      }
      ln := ln[..i];
      i := i - 1;
    }
  }

  /** The leading trim loop of ReadUntilTrimmed. */
  method TrimLeadingLoop(ln0: seq<char>) returns (ln: seq<char>)
    ensures ln == TrimLeading(ln0, 0)
  {
    ln := ln0;
    var i := 0;
    while i < |ln|
      invariant TrimLeading(ln, i) == TrimLeading(ln0, 0)
      decreases |ln| - i
    {
      if ln[0] != ' ' && ln[0] != '\t' {
        break;
      }
      ln := ln[1..];
      i := i + 1;
    }
  }

  /** ReadUntilTrimmed. */
  method ReadUntilTrimmed(cr: Lexer.CharReader, chars: seq<char>) returns (r: Result<string, ParseError>)
    requires cr.Valid()
    modifies cr
    ensures cr.Valid()
    ensures Agrees(r, cr.State(), ReadUntilTrimmedSpec(old(cr.State()), chars))
  {
    ghost var cur := cr.State();
    var ln := cr.ReadUntil(chars, []);
    if cr.EOF {
      return Err(ErrUnexpectedEnd(cr.L));
    }
    assert ln == cur.rest[..SpanNotIn(cur.rest, chars)];
    ln := TrimTrailingLoop(ln);
    ln := TrimLeadingLoop(ln);
    return Ok(ln);
  }
}
