/**
 * The posting lines of a transaction (parse/parse.go, the posting branch of the posting
 * loop): an optional status mark, the account name, an optional amount in dollars and an
 * optional note after ';'.
 */
module Postings {
  import opened Wrappers
  import opened Chars
  import opened Ledger
  import opened Parser
  import Lexer

  /** The optional cleared indicator: '*' is Clear, '!' is Pending, and both are consumed. */
  function StatusMark(cur: Cursor): (r: Parsed<Status>)
    ensures cur.Valid() ==> r.cur.Valid()
    ensures |r.cur.rest| <= |cur.rest|
  {
    if cur.c == '*' then Parsed(StatusClear, Next(cur))
    else if cur.c == '!' then Parsed(StatusPending, Next(cur))
    else Parsed(StatusUndefined, cur)
  }

  /** Where an account name stops: a tab, a newline, or a space followed by a space. */
  predicate AccountEnd(cur: Cursor)
  {
    cur.c == '\t' || cur.c == '\n' || (cur.c == ' ' && cur.LookAhead() == ' ')
  }

  /** The account loop: every other character is part of the name; EOF inside it is an error. */
  function AccountLoop(cur: Cursor, buf: seq<char>): (r: Result<Parsed<string>, ParseError>)
    requires cur.Valid() && cur.rest != []
    ensures r.Ok? ==> r.value.cur.Valid() && r.value.cur.rest != [] && |r.value.cur.rest| <= |cur.rest|
    decreases |cur.rest|
  {
    if AccountEnd(cur) then Ok(Parsed(buf, cur))
    else
      var n := Next(cur);
      if n.rest == [] then Err(ErrUnexpectedEnd(n.line)) else AccountLoop(n, buf + [cur.c])
  }

  /** The account name; an empty one is ErrMalformed. */
  function AccountSpec(cur: Cursor): (r: Result<Parsed<string>, ParseError>)
    requires cur.Valid() && cur.rest != []
    ensures r.Ok? ==> r.value.cur.Valid() && r.value.cur.rest != [] && |r.value.cur.rest| <= |cur.rest|
  {
    match AccountLoop(cur, [])
    case Err(e) => Err(e)
    case Ok(p) => if p.value == [] then Err(ErrMalformed(p.cur.line)) else Ok(p)
  }

  /**
   * The amount loop's variables: the whole and fractional accumulators, whether
   * cur has moved to the fractional one, and the null flag (no digit read yet).
   */
  datatype Amount = Amount(whole: int, part: int, inPart: bool, isNull: bool)

  const NoAmount := Amount(0, 0, false, true)

  /** One digit into the accumulator cur points at. */
  function AddDigit(a: Amount, c: char): Amount
  {
    var d := c as int - '0' as int;
    if a.inPart then a.(part := a.part * 10 + d, isNull := false)
    else a.(whole := a.whole * 10 + d, isNull := false)
  }

  /** The loop condition of the amount loop. C is examined even at EOF, where it is stale. */
  predicate AmountChar(cur: Cursor)
  {
    (cur.rest != [] && IsDigit(cur.c)) || cur.c == '.' || cur.c == ','
  }

  /**
   * One pass of the amount loop. At EOF C still holds the last character: a '.' there passes
   * once and fails on the next pass, and a ',' keeps the loop running forever, which is the
   * outcome AmountNeverEnds.
   */
  function AmountStep(cur: Cursor, a: Amount): (r: Result<Parsed<Amount>, ParseError>)
    requires cur.Valid() && AmountChar(cur)
    ensures r.Ok? ==> r.value.cur.Valid()
    ensures r.Ok? ==> |r.value.cur.rest| < |cur.rest| || (r.value.cur.rest == cur.rest && !a.inPart && r.value.value.inPart)
  {
    if cur.c == '.' then
      if a.inPart || a.isNull then Err(ErrBadAmount(cur.line)) else Ok(Parsed(a.(inPart := true), Next(cur)))
    else if cur.c == ',' then
      if cur.rest == [] then Err(AmountNeverEnds(cur.line)) else Ok(Parsed(a, Next(cur)))
    else
      var n := Next(cur);
      if n.rest == [] then Err(ErrUnexpectedEnd(n.line)) else Ok(Parsed(AddDigit(a, cur.c), n))
  }

  /** The loop `for MatchNumeric() || C == '.' || C == ','`. */
  function AmountLoop(cur: Cursor, a: Amount): (r: Result<Parsed<Amount>, ParseError>)
    requires cur.Valid()
    ensures r.Ok? ==> r.value.cur.Valid() && |r.value.cur.rest| <= |cur.rest|
    decreases |cur.rest|, if a.inPart then 0 else 1
  {
    if !AmountChar(cur) then Ok(Parsed(a, cur))
    else
      match AmountStep(cur, a)
      case Err(e) => Err(e)
      case Ok(p) => AmountLoop(p.cur, p.value)
  }

  /** The fractional digits are scaled by the size of the number they spell, not by their count. */
  function ScalePart(part: int): int
  {
    if part < 9 then part * 1000
    else if part < 99 then part * 100
    else if part < 9999 then part * 10
    else part
  }

  /** The value in ten-thousandths, with the sign; a fractional part over 9999 is ErrBadAmount. */
  function AmountValue(a: Amount, neg: bool, line: int): Result<int, ParseError>
  {
    if a.part > 9999 then Err(ErrBadAmount(line))
    else
      var v := a.whole * 10000 + ScalePart(a.part);
      Ok(if neg then -v else v)
  }

  /** The optional '$' (with blanks after it), the optional '-', then the amount loop. */
  function AmountSpec(cur: Cursor): (r: Result<Parsed<(int, bool)>, ParseError>)
    requires cur.Valid() && cur.rest != []
    ensures r.Ok? ==> r.value.cur.Valid() && |r.value.cur.rest| <= |cur.rest|
  {
    if cur.c == '$' then
      var c1 := EatSpec(Next(cur), Blanks);
      if c1.rest == [] then Err(ErrUnexpectedEnd(c1.line)) else SignedAmount(c1)
    else SignedAmount(cur)
  }

  /** The optional '-', then the amount loop. */
  function SignedAmount(cur: Cursor): (r: Result<Parsed<(int, bool)>, ParseError>)
    requires cur.Valid() && cur.rest != []
    ensures r.Ok? ==> r.value.cur.Valid() && |r.value.cur.rest| <= |cur.rest|
  {
    if cur.c == '-' then AmountBody(Next(cur), true) else AmountBody(cur, false)
  }

  /** The amount loop, then the null check and the fixed-point value. */
  function AmountBody(cur: Cursor, neg: bool): (r: Result<Parsed<(int, bool)>, ParseError>)
    requires cur.Valid()
    ensures r.Ok? ==> r.value.cur.Valid() && |r.value.cur.rest| <= |cur.rest|
  {
    match AmountLoop(cur, NoAmount)
    case Err(e) => Err(e)
    case Ok(p) => AfterLoop(p, neg)
  }

  /** After the loop: no digit read is the null amount (0, true), otherwise (value, false). */
  function AfterLoop(p: Parsed<Amount>, neg: bool): (r: Result<Parsed<(int, bool)>, ParseError>)
    ensures r.Ok? ==> r.value.cur == p.cur
  {
    if p.value.isNull then Ok(Parsed((0, true), p.cur))
    else
      match AmountValue(p.value, neg, p.cur.line)
      case Err(e) => Err(e)
      case Ok(v) => Ok(Parsed((v, false), p.cur))
  }

  /** A posting line, from its first non-blank character: status, blanks, account. */
  function PostingSpec(cur: Cursor): (r: Result<Parsed<Posting>, ParseError>)
    requires cur.Valid() && cur.rest != []
    ensures r.Ok? ==> r.value.cur.Valid() && |r.value.cur.rest| < |cur.rest|
  {
    var st := StatusMark(cur);
    var e := EatSpec(st.cur, Blanks);
    if e.rest == [] then Err(ErrUnexpectedEnd(e.line))
    else
      match AccountSpec(e)
      case Err(err) => Err(err)
      case Ok(acct) => PostingAmount(st.value, acct.value, acct.cur)
  }

  /** The rest of a posting line after the account: blanks, then the amount. */
  function PostingAmount(status: Status, account: string, cur: Cursor): (r: Result<Parsed<Posting>, ParseError>)
    requires cur.Valid()
    ensures r.Ok? ==> r.value.cur.Valid() && |r.value.cur.rest| < |cur.rest|
  {
    var e := EatSpec(cur, Blanks);
    if e.rest == [] then Err(ErrUnexpectedEnd(e.line))
    else
      match AmountSpec(e)
      case Err(err) => Err(err)
      case Ok(a) => PostingNote(Posting(status, account, a.value.0, a.value.1, ""), a.cur)
  }

  /** The end of a posting line: blanks, then a note after ';' or the '\n'. */
  function PostingNote(p: Posting, cur: Cursor): (r: Result<Parsed<Posting>, ParseError>)
    requires cur.Valid()
    ensures r.Ok? ==> r.value.cur.Valid() && |r.value.cur.rest| < |cur.rest|
  {
    var e := EatSpec(cur, Blanks);
    if e.rest == [] then Err(ErrUnexpectedEnd(e.line))
    else if e.c == ';' then
      match ReadUntilTrimmedSpec(Next(e), "\n")
      case Err(err) => Err(err)
      case Ok(n) => Ok(Parsed(p.(note := n.value), Next(n.cur)))
    else
      var e2 := EatSpec(e, Blanks);
      if e2.rest == [] then Err(ErrUnexpectedEnd(e2.line))
      else if e2.c != '\n' then Err(ErrMalformed(e2.line))
      else Ok(Parsed(p, Next(e2)))
  }

  /** The status mark on the reader. */
  method ReadStatus(cr: Lexer.CharReader) returns (st: Status)
    requires cr.Valid()
    modifies cr
    ensures cr.Valid()
    ensures StatusMark(old(cr.State())) == Parsed(st, cr.State())
  {
    if cr.C == '*' {
      st := StatusClear;
      cr.Next();
    } else if cr.C == '!' {
      st := StatusPending;
      cr.Next();
    } else {
      st := StatusUndefined;
    }
  }

  /** The account loop on the reader. */
  method ReadAccount(cr: Lexer.CharReader) returns (r: Result<string, ParseError>)
    requires cr.Valid() && !cr.EOF
    modifies cr
    ensures cr.Valid()
    ensures Agrees(r, cr.State(), AccountSpec(old(cr.State())))
  {
    ghost var start := cr.State();
    var buf := [];
    while true
      invariant cr.Valid() && !cr.EOF
      invariant AccountLoop(cr.State(), buf) == AccountLoop(start, [])
      decreases |cr.State().rest|
    {
      if cr.C == '\t' || cr.C == '\n' || (cr.C == ' ' && cr.NC == ' ') {
        break;
      }
      buf := buf + [cr.C];
      cr.Next();
      if cr.EOF {
        return Err(ErrUnexpectedEnd(cr.L));
      }
    }
    if |buf| == 0 {
      return Err(ErrMalformed(cr.L));
    }
    return Ok(buf);
  }

  /** One pass of the amount loop on the reader; whole, part, cur and null are the fields of a. */
  method ReadAmountStep(cr: Lexer.CharReader, a: Amount) returns (r: Result<Amount, ParseError>)
    requires cr.Valid() && AmountChar(cr.State())
    modifies cr
    ensures cr.Valid()
    ensures Agrees(r, cr.State(), AmountStep(old(cr.State()), a))
  {
    if cr.C == '.' {
      if a.inPart || a.isNull {
        return Err(ErrBadAmount(cr.L));
      }
      cr.Next();
      return Ok(a.(inPart := true));
    }
    if cr.C == ',' {
      if cr.EOF {
        // Go's loop never ends here: Next leaves C on the ','
        return Err(AmountNeverEnds(cr.L));
      }
      cr.Next();
      return Ok(a);
    }
    var d := cr.C as int - '0' as int;
    r := Ok(if a.inPart then a.(part := a.part * 10 + d, isNull := false) else a.(whole := a.whole * 10 + d, isNull := false));
    cr.Next();
    if cr.EOF {
      return Err(ErrUnexpectedEnd(cr.L));
    }
  }

  /** The amount loop on the reader. */
  method ReadAmountDigits(cr: Lexer.CharReader) returns (r: Result<Amount, ParseError>)
    requires cr.Valid()
    modifies cr
    ensures cr.Valid()
    ensures Agrees(r, cr.State(), AmountLoop(old(cr.State()), NoAmount))
  {
    ghost var start := cr.State();
    var a := NoAmount;
    while cr.MatchNumeric() || cr.C == '.' || cr.C == ','
      invariant cr.Valid()
      invariant AmountLoop(cr.State(), a) == AmountLoop(start, NoAmount)
      decreases |cr.State().rest|, if a.inPart then 0 else 1
    {
      var s := ReadAmountStep(cr, a);
      if s.Err? {
        return Err(s.error);
      }
      a := s.value;
    }
    return Ok(a);
  }

  /** The fixed-point conversion after the loop. */
  method FixedPoint(a: Amount, neg: bool, line: int) returns (r: Result<int, ParseError>)
    ensures r == AmountValue(a, neg, line)
  {
    var whole := a.whole * 10000;
    var part := a.part;
    if part > 9999 {
      return Err(ErrBadAmount(line));
    }
    if part < 9 {
      part := part * 1000;
    } else if part < 99 {
      part := part * 100;
    } else if part < 9999 {
      part := part * 10;
    }
    var value := whole + part;
    if neg {
      value := -value;
    }
    return Ok(value);
  }

  /** The amount on the reader: '$', '-', the digits, and the fixed-point value. */
  method ReadAmount(cr: Lexer.CharReader) returns (r: Result<(int, bool), ParseError>)
    requires cr.Valid() && !cr.EOF
    modifies cr
    ensures cr.Valid()
    ensures Agrees(r, cr.State(), AmountSpec(old(cr.State())))
  {
    if cr.C == '$' {
      cr.Next();
      cr.Eat(Blanks);
      if cr.EOF {
        return Err(ErrUnexpectedEnd(cr.L));
      }
    }
    var neg := false;
    if cr.C == '-' {
      cr.Next();
      neg := true;
    }
    r := ReadAmountBody(cr, neg);
  }

  /** The digits and the value, once the sign is read. */
  method ReadAmountBody(cr: Lexer.CharReader, neg: bool) returns (r: Result<(int, bool), ParseError>)
    requires cr.Valid()
    modifies cr
    ensures cr.Valid()
    ensures Agrees(r, cr.State(), AmountBody(old(cr.State()), neg))
  {
    var a := ReadAmountDigits(cr);
    if a.Err? {
      return Err(a.error);
    }
    if a.value.isNull {
      return Ok((0, true));
    }
    var v := FixedPoint(a.value, neg, cr.L);
    if v.Err? {
      return Err(v.error);
    }
    return Ok((v.value, false));
  }

  /** A posting line on the reader. */
  method ReadPosting(cr: Lexer.CharReader) returns (r: Result<Posting, ParseError>)
    requires cr.Valid() && !cr.EOF
    modifies cr
    ensures cr.Valid()
    ensures Agrees(r, cr.State(), PostingSpec(old(cr.State())))
  {
    var st := ReadStatus(cr);
    cr.Eat(Blanks);
    if cr.EOF {
      return Err(ErrUnexpectedEnd(cr.L));
    }
    var account := ReadAccount(cr);
    if account.Err? {
      return Err(account.error);
    }
    r := ReadPostingAmount(cr, st, account.value);
  }

  /** The amount of a posting line on the reader. */
  method ReadPostingAmount(cr: Lexer.CharReader, status: Status, account: string) returns (r: Result<Posting, ParseError>)
    requires cr.Valid()
    modifies cr
    ensures cr.Valid()
    ensures Agrees(r, cr.State(), PostingAmount(status, account, old(cr.State())))
  {
    cr.Eat(Blanks);
    if cr.EOF {
      return Err(ErrUnexpectedEnd(cr.L));
    }
    var a := ReadAmount(cr);
    if a.Err? {
      return Err(a.error);
    }
    r := ReadPostingNote(cr, Posting(status, account, a.value.0, a.value.1, ""));
  }

  /** The end of a posting line on the reader. */
  method ReadPostingNote(cr: Lexer.CharReader, post: Posting) returns (r: Result<Posting, ParseError>)
    requires cr.Valid()
    modifies cr
    ensures cr.Valid()
    ensures Agrees(r, cr.State(), PostingNote(post, old(cr.State())))
  {
    cr.Eat(Blanks);
    if cr.EOF {
      return Err(ErrUnexpectedEnd(cr.L));
    }
    // Optional note
    if cr.C == ';' {
      cr.Next();
      var line := ReadUntilTrimmed(cr, "\n");
      if line.Err? {
        return Err(line.error);
      }
      cr.Next();
      return Ok(post.(note := line.value));
    }
    cr.Eat(Blanks);
    if cr.EOF {
      return Err(ErrUnexpectedEnd(cr.L));
    }
    if cr.C != '\n' {
      return Err(ErrMalformed(cr.L));
    }
    cr.Next();
    return Ok(post);
  }

  // ---------------------------------------------------------------------------------------
  // What the amount loop reads

  predicate IsAmountChar(c: char) { IsDigit(c) || c == '.' || c == ',' }

  /** Length of the run of digits, '.' and ',' at the start of s. */
  function AmountSpan(s: seq<char>): (k: nat)
    ensures k <= |s|
    ensures forall i :: 0 <= i < k ==> IsAmountChar(s[i])
    ensures k < |s| ==> !IsAmountChar(s[k])
  {
    if s == [] || !IsAmountChar(s[0]) then 0 else 1 + AmountSpan(s[1..])
  }

  /** One character of an amount, as the loop body treats it. */
  function AmountCharStep(a: Amount, c: char): Option<Amount>
  {
    if c == '.' then (if a.inPart || a.isNull then None else Some(a.(inPart := true)))
    else if c == ',' then Some(a)
    else Some(AddDigit(a, c))
  }

  /** The accumulators after the characters of w, or None once a '.' is refused. */
  function Accumulate(w: seq<char>): Option<Amount>
  {
    if w == [] then Some(NoAmount)
    else
      match Accumulate(w[..|w| - 1])
      case None => None
      case Some(a) => AmountCharStep(a, w[|w| - 1])
  }

  lemma AccumulateSnoc(v: seq<char>, c: char)
    ensures Accumulate(v + [c]) == (if Accumulate(v).None? then None else AmountCharStep(Accumulate(v).value, c))
  {
    assert (v + [c])[..|v|] == v;
  }

  /** Once a '.' is refused, no later character recovers. */
  lemma {:induction false} AccumulateNoneStays(w: seq<char>, i: nat)
    requires i <= |w| && Accumulate(w[..i]).None?
    ensures Accumulate(w).None?
    decreases |w| - i
  {
    if i < |w| {
      assert w[..i + 1] == w[..i] + [w[i]];
      AccumulateSnoc(w[..i], w[i]);
      AccumulateNoneStays(w, i + 1);
    } else {
      assert w[..i] == w;
    }
  }

  /** One pass of the amount loop on the j-th character of a run, by what it accepts. */
  lemma AmountLoopAt(cur: Cursor, j: nat, a: Amount)
    requires cur.Valid() && j < |cur.rest| && IsAmountChar(cur.rest[j])
    ensures var s := cur.rest; AmountCharStep(a, s[j]).None? ==> AmountLoop(Skip(cur, j), a).error.ErrBadAmount?
    ensures var s := cur.rest; AmountCharStep(a, s[j]).Some? && j + 1 < |s| ==>
      AmountLoop(Skip(cur, j), a) == AmountLoop(Skip(cur, j + 1), AmountCharStep(a, s[j]).value)
    ensures j + 1 == |cur.rest| ==> AmountLoop(Skip(cur, j), a).Err?
  {
    var s := cur.rest;
    var here := Skip(cur, j);
    assert here.rest == s[j..] && here.c == s[j];
    SkipNext(cur, j);
    if j + 1 == |s| {
      var next := Skip(cur, j + 1);
      assert next.rest == [] && next.c == s[j];
    }
  }

  /**
   * The outcome of an amount loop over cur's input whose run of amount characters is k long
   * and leaves the accumulators acc: Ok exactly when the run stops before the end of the input
   * and every '.' in it was accepted, and then with the whole run read.
   */
  predicate LoopOutcome(r: Result<Parsed<Amount>, ParseError>, cur: Cursor, k: nat, acc: Option<Amount>)
  {
    && (r.Ok? <==> k < |cur.rest| && acc.Some?)
    && (k < |cur.rest| && acc.Some? ==> r == Ok(Parsed(acc.value, Skip(cur, k))))
    && (k < |cur.rest| && acc.None? ==> r.error.ErrBadAmount?)
  }

  /** The accumulators after one more character of the run. */
  lemma AccumulateNext(s: seq<char>, j: nat, a: Amount)
    requires j < |s| && Accumulate(s[..j]) == Some(a)
    ensures Accumulate(s[..j + 1]) == AmountCharStep(a, s[j])
  {
    assert s[..j + 1] == s[..j] + [s[j]];
    AccumulateSnoc(s[..j], s[j]);
  }

  /** The loop at the end of the run. */
  lemma AmountLoopStop(cur: Cursor, j: nat, k: nat, a: Amount)
    requires cur.Valid() && k == AmountSpan(cur.rest) && j < |cur.rest| && j == k
    requires Accumulate(cur.rest[..j]) == Some(a)
    ensures LoopOutcome(AmountLoop(Skip(cur, j), a), cur, k, Accumulate(cur.rest[..k]))
  {
    var here := Skip(cur, j);
    assert here.rest == cur.rest[j..] && here.c == cur.rest[j];
  }

  /** The loop on a '.' it refuses. */
  lemma AmountLoopRefused(cur: Cursor, j: nat, k: nat, a: Amount)
    requires cur.Valid() && k == AmountSpan(cur.rest) && j < |cur.rest| && j < k
    requires Accumulate(cur.rest[..j]) == Some(a) && AmountCharStep(a, cur.rest[j]).None?
    ensures LoopOutcome(AmountLoop(Skip(cur, j), a), cur, k, Accumulate(cur.rest[..k]))
  {
    var s := cur.rest;
    AccumulateNext(s, j, a);
    AmountLoopAt(cur, j, a);
    assert s[..k][..j + 1] == s[..j + 1];
    AccumulateNoneStays(s[..k], j + 1);
  }

  /** The loop on the last character of the input, inside the run. */
  lemma AmountLoopLast(cur: Cursor, j: nat, k: nat, a: Amount)
    requires cur.Valid() && k == AmountSpan(cur.rest) && j + 1 == |cur.rest| && j < k
    ensures LoopOutcome(AmountLoop(Skip(cur, j), a), cur, k, Accumulate(cur.rest[..k]))
  {
    AmountLoopAt(cur, j, a);
  }

  /** The amount loop from position j of the input, with the accumulators a of the first j characters. */
  lemma {:induction false} AmountLoopFrom(cur: Cursor, j: nat, k: nat, a: Amount)
    requires cur.Valid() && k == AmountSpan(cur.rest) && j < |cur.rest| && j <= k
    requires Accumulate(cur.rest[..j]) == Some(a)
    ensures LoopOutcome(AmountLoop(Skip(cur, j), a), cur, k, Accumulate(cur.rest[..k]))
    decreases |cur.rest| - j
  {
    var s := cur.rest;
    if j == k {
      AmountLoopStop(cur, j, k, a);
    } else if AmountCharStep(a, s[j]).None? {
      AmountLoopRefused(cur, j, k, a);
    } else if j + 1 == |s| {
      AmountLoopLast(cur, j, k, a);
    } else {
      var b := AmountCharStep(a, s[j]).value;
      AccumulateNext(s, j, a);
      AmountLoopAt(cur, j, a);
      AmountLoopFrom(cur, j + 1, k, b);
    }
  }

  /** The amount loop from the first character after the sign. */
  lemma AmountLoopGrammar(cur: Cursor)
    requires cur.Valid() && cur.rest != []
    ensures var s := cur.rest; var k := AmountSpan(s);
      AmountLoop(cur, NoAmount).Ok? <==> k < |s| && Accumulate(s[..k]).Some?
    ensures var s := cur.rest; var k := AmountSpan(s);
      k < |s| && Accumulate(s[..k]).Some? ==>
        AmountLoop(cur, NoAmount) == Ok(Parsed(Accumulate(s[..k]).value, Skip(cur, k)))
    ensures var s := cur.rest; var k := AmountSpan(s);
      k < |s| && Accumulate(s[..k]).None? ==> AmountLoop(cur, NoAmount).error.ErrBadAmount?
  {
    assert cur.rest[..0] == [];
    AmountLoopFrom(cur, 0, AmountSpan(cur.rest), NoAmount);
  }

  // ---------------------------------------------------------------------------------------
  // The accumulators in closed form

  /** The digits of w, in order. */
  function DigitsOf(w: seq<char>): seq<char>
  {
    if w == [] then []
    else if IsDigit(w[|w| - 1]) then DigitsOf(w[..|w| - 1]) + [w[|w| - 1]]
    else DigitsOf(w[..|w| - 1])
  }

  predicate HasDigit(w: seq<char>) { DigitsOf(w) != [] }

  predicate HasDot(w: seq<char>) { SpanNotIn(w, ".") < |w| }

  /** The characters before the first '.' of w. */
  function WholeText(w: seq<char>): seq<char>
  {
    w[..SpanNotIn(w, ".")]
  }

  /** The characters after the first '.' of w (none when w has no '.'). */
  function PartText(w: seq<char>): seq<char>
  {
    if HasDot(w) then w[SpanNotIn(w, ".") + 1..] else []
  }

  /** Every '.' of w is accepted: there is none, or one with a digit before it and no other after it. */
  predicate DotsAccepted(w: seq<char>)
  {
    !HasDot(w) || (HasDigit(WholeText(w)) && '.' !in PartText(w))
  }

  /** What the loop builds from a run of digits, '.' and ',': the commas count for nothing. */
  function AmountOf(w: seq<char>): Amount
  {
    Amount(DigitsValue(DigitsOf(WholeText(w))), DigitsValue(DigitsOf(PartText(w))), HasDot(w), !HasDigit(w))
  }

  lemma {:induction false} SpanNotInSnoc(v: seq<char>, c: char, chars: seq<char>)
    ensures SpanNotIn(v + [c], chars) ==
      if SpanNotIn(v, chars) < |v| then SpanNotIn(v, chars) else if c in chars then |v| else |v| + 1
  {
    if v != [] {
      assert (v + [c])[1..] == v[1..] + [c];
      SpanNotInSnoc(v[1..], c, chars);
    }
  }

  lemma DigitsOfSnoc(v: seq<char>, c: char)
    ensures IsDigit(c) ==> DigitsOf(v + [c]) == DigitsOf(v) + [c]
    ensures !IsDigit(c) ==> DigitsOf(v + [c]) == DigitsOf(v)
    ensures HasDigit(v + [c]) <==> HasDigit(v) || IsDigit(c)
  {
    assert (v + [c])[..|v|] == v;
  }

  lemma DigitsValueSnoc(v: seq<char>, c: char)
    requires IsDigit(c)
    ensures DigitsValue(v + [c]) == DigitsValue(v) * 10 + (c as int - '0' as int)
  {
    assert (v + [c])[..|v|] == v;
  }

  lemma NoDotText(v: seq<char>)
    requires !HasDot(v)
    ensures WholeText(v) == v && PartText(v) == []
  {
    assert v[..|v|] == v;
  }

  /** The first '.' of a run. */
  lemma SnocFirstDot(v: seq<char>)
    requires !HasDot(v)
    ensures HasDot(v + ['.']) && WholeText(v + ['.']) == v && PartText(v + ['.']) == []
  {
    SpanNotInSnoc(v, '.', ".");
    assert (v + ['.'])[..|v|] == v;
  }

  /** Another character before any '.'. */
  lemma SnocBeforeDot(v: seq<char>, c: char)
    requires !HasDot(v) && c != '.'
    ensures !HasDot(v + [c]) && WholeText(v + [c]) == v + [c] && PartText(v + [c]) == []
  {
    SpanNotInSnoc(v, c, ".");
    assert (v + [c])[..|v| + 1] == v + [c];
  }

  /** A character after the first '.'. */
  lemma SnocAfterDot(v: seq<char>, c: char)
    requires HasDot(v)
    ensures HasDot(v + [c]) && WholeText(v + [c]) == WholeText(v) && PartText(v + [c]) == PartText(v) + [c]
  {
    var d := SpanNotIn(v, ".");
    SpanNotInSnoc(v, c, ".");
    assert (v + [c])[..d] == v[..d];
    assert (v + [c])[d + 1..] == v[d + 1..] + [c];
  }

  /** A digit: it goes to the accumulator `cur` designates. */
  lemma StepDigit(v: seq<char>, c: char)
    requires IsDigit(c) && DotsAccepted(v)
    ensures DotsAccepted(v + [c]) && AddDigit(AmountOf(v), c) == AmountOf(v + [c])
  {
    if HasDot(v) {
      StepDigitPart(v, c);
    } else {
      StepDigitWhole(v, c);
    }
  }

  /** A digit after the '.' extends the part. */
  lemma StepDigitPart(v: seq<char>, c: char)
    requires IsDigit(c) && DotsAccepted(v) && HasDot(v)
    ensures DotsAccepted(v + [c]) && AddDigit(AmountOf(v), c) == AmountOf(v + [c])
  {
    DigitsOfSnoc(v, c);
    SnocAfterDot(v, c);
    DigitsOfSnoc(PartText(v), c);
    DigitsValueSnoc(DigitsOf(PartText(v)), c);
  }

  /** A digit before any '.' extends the whole units. */
  lemma StepDigitWhole(v: seq<char>, c: char)
    requires IsDigit(c) && !HasDot(v)
    ensures DotsAccepted(v + [c]) && AddDigit(AmountOf(v), c) == AmountOf(v + [c])
  {
    NoDotText(v);
    SnocBeforeDot(v, c);
    DigitsOfSnoc(v, c);
    DigitsValueSnoc(DigitsOf(v), c);
  }

  /** A ',': nothing changes. */
  lemma StepComma(v: seq<char>)
    requires DotsAccepted(v)
    ensures DotsAccepted(v + [',']) && AmountOf(v) == AmountOf(v + [','])
  {
    DigitsOfSnoc(v, ',');
    if HasDot(v) {
      SnocAfterDot(v, ',');
      DigitsOfSnoc(PartText(v), ',');
    } else {
      NoDotText(v);
      SnocBeforeDot(v, ',');
    }
  }

  /** A '.': refused after another '.' or before any digit, otherwise `cur` moves to the fractional part. */
  lemma StepDot(v: seq<char>)
    requires DotsAccepted(v)
    ensures DotsAccepted(v + ['.']) <==> !AmountOf(v).inPart && !AmountOf(v).isNull
    ensures DotsAccepted(v + ['.']) ==> AmountOf(v).(inPart := true) == AmountOf(v + ['.'])
  {
    DigitsOfSnoc(v, '.');
    if HasDot(v) {
      SnocAfterDot(v, '.');
    } else {
      NoDotText(v);
      SnocFirstDot(v);
    }
  }

  /**
   * The amount loop's accumulators after a run of amount characters: the digits before the
   * first '.' make the whole part, those after it the fractional part, commas count for
   * nothing, and the run is refused when a '.' has no digit before it or a second '.' follows.
   */
  lemma {:induction false} AccumulateSpec(w: seq<char>)
    requires forall i :: 0 <= i < |w| ==> IsAmountChar(w[i])
    ensures Accumulate(w).Some? <==> DotsAccepted(w)
    ensures Accumulate(w).Some? ==> Accumulate(w).value == AmountOf(w)
  {
    if w == [] {
      assert !HasDot(w) && WholeText(w) == [] && PartText(w) == [];
    } else {
      var v := w[..|w| - 1];
      var c := w[|w| - 1];
      assert w == v + [c];
      AccumulateSpec(v);
      AccumulateSnoc(v, c);
      if !DotsAccepted(v) {
        assert Accumulate(w).None?;
        NotAcceptedStays(v, c);
      } else if c == '.' {
        StepDot(v);
      } else if c == ',' {
        StepComma(v);
      } else {
        StepDigit(v, c);
      }
    }
  }

  lemma NotAcceptedStays(v: seq<char>, c: char)
    requires !DotsAccepted(v)
    ensures !DotsAccepted(v + [c])
  {
    SnocAfterDot(v, c);
  }

  /**
   * The amount loop in terms of the text it reads: it reads the whole run of digits, '.' and
   * ',' and succeeds exactly when something other than an amount character follows the run and
   * every '.' of the run is accepted; its accumulators are then those of AmountOf.
   */
  lemma AmountDigitsGrammar(cur: Cursor)
    requires cur.Valid() && cur.rest != []
    ensures var s := cur.rest; var k := AmountSpan(s);
      AmountLoop(cur, NoAmount).Ok? <==> k < |s| && DotsAccepted(s[..k])
    ensures var s := cur.rest; var k := AmountSpan(s);
      k < |s| && DotsAccepted(s[..k]) ==> AmountLoop(cur, NoAmount) == Ok(Parsed(AmountOf(s[..k]), Skip(cur, k)))
    ensures var s := cur.rest; var k := AmountSpan(s);
      k < |s| && !DotsAccepted(s[..k]) ==> AmountLoop(cur, NoAmount).error.ErrBadAmount?
  {
    var s := cur.rest;
    var k := AmountSpan(s);
    AmountLoopGrammar(cur);
    assert forall i :: 0 <= i < |s[..k]| ==> IsAmountChar(s[..k][i]);
    AccumulateSpec(s[..k]);
  }

  /**
   * The outcome of the amount after its sign, in terms of the run w of amount characters it
   * starts with: Ok exactly when the run ends before EOF, its '.' are accepted and the
   * fractional digits spell at most 9999; then null exactly when w has no digit, and otherwise
   * the whole part in ten-thousandths plus the scaled fractional part, negated for a '-'.
   */
  predicate BodyOutcome(r: Result<Parsed<(int, bool)>, ParseError>, cur: Cursor, neg: bool)
  {
    var s := cur.rest;
    var k := AmountSpan(s);
    var w := s[..k];
    var a := AmountOf(w);
    var v := a.whole * 10000 + ScalePart(a.part);
    && (r.Ok? <==> k < |s| && DotsAccepted(w) && a.part <= 9999)
    && (k < |s| && DotsAccepted(w) && !HasDigit(w) ==> r == Ok(Parsed((0, true), Skip(cur, k))))
    && (k < |s| && DotsAccepted(w) && HasDigit(w) && a.part <= 9999 ==>
          r == Ok(Parsed((if neg then -v else v, false), Skip(cur, k))))
  }

  /** The amount after its sign follows the text it reads. */
  lemma AmountBodyGrammar(cur: Cursor, neg: bool)
    requires cur.Valid() && cur.rest != []
    ensures BodyOutcome(AmountBody(cur, neg), cur, neg)
  {
    var s := cur.rest;
    var k := AmountSpan(s);
    var w := s[..k];
    if !(k < |s| && DotsAccepted(w)) {
      AmountBodyRefusesRun(cur, neg);
    } else if HasDigit(w) {
      AmountBodyValue(cur, neg);
    } else {
      AmountBodyNull(cur, neg);
    }
  }

  /** A run with no digit is the null amount. */
  lemma AmountBodyNull(cur: Cursor, neg: bool)
    requires cur.Valid() && cur.rest != []
    requires var k := AmountSpan(cur.rest);
      k < |cur.rest| && DotsAccepted(cur.rest[..k]) && !HasDigit(cur.rest[..k])
    ensures BodyOutcome(AmountBody(cur, neg), cur, neg)
  {
    var k := AmountSpan(cur.rest);
    var w := cur.rest[..k];
    AmountBodyReadsRun(cur, neg);
    AfterLoopCases(Parsed(AmountOf(w), Skip(cur, k)), neg);
    assert AmountOf(w).part == 0 by {
      NoDigitInPart(w);
    }
  }

  /** A run with a digit is a value. */
  lemma AmountBodyValue(cur: Cursor, neg: bool)
    requires cur.Valid() && cur.rest != []
    requires var k := AmountSpan(cur.rest);
      k < |cur.rest| && DotsAccepted(cur.rest[..k]) && HasDigit(cur.rest[..k])
    ensures BodyOutcome(AmountBody(cur, neg), cur, neg)
  {
    var k := AmountSpan(cur.rest);
    var w := cur.rest[..k];
    AmountBodyReadsRun(cur, neg);
    AfterLoopCases(Parsed(AmountOf(w), Skip(cur, k)), neg);
  }

  lemma AfterLoopCases(p: Parsed<Amount>, neg: bool)
    ensures p.value.isNull ==> AfterLoop(p, neg) == Ok(Parsed((0, true), p.cur))
    ensures !p.value.isNull && p.value.part > 9999 ==> AfterLoop(p, neg).Err?
    ensures var v := p.value.whole * 10000 + ScalePart(p.value.part);
      !p.value.isNull && p.value.part <= 9999 ==> AfterLoop(p, neg) == Ok(Parsed((if neg then -v else v, false), p.cur))
  {
    if !p.value.isNull && p.value.part <= 9999 {
      var v := p.value.whole * 10000 + ScalePart(p.value.part);
      assert AmountValue(p.value, neg, p.cur.line) == Ok(if neg then -v else v);
    }
  }

  lemma AmountBodyReadsRun(cur: Cursor, neg: bool)
    requires cur.Valid() && cur.rest != []
    requires AmountSpan(cur.rest) < |cur.rest| && DotsAccepted(cur.rest[..AmountSpan(cur.rest)])
    ensures var k := AmountSpan(cur.rest);
      AmountBody(cur, neg) == AfterLoop(Parsed(AmountOf(cur.rest[..k]), Skip(cur, k)), neg)
  {
    var k := AmountSpan(cur.rest);
    var p := Parsed(AmountOf(cur.rest[..k]), Skip(cur, k));
    assert AmountLoop(cur, NoAmount) == Ok(p) by {
      AmountDigitsGrammar(cur);
    }
  }

  lemma AmountBodyRefusesRun(cur: Cursor, neg: bool)
    requires cur.Valid() && cur.rest != []
    requires !(AmountSpan(cur.rest) < |cur.rest| && DotsAccepted(cur.rest[..AmountSpan(cur.rest)]))
    ensures AmountBody(cur, neg).Err?
    ensures BodyOutcome(AmountBody(cur, neg), cur, neg)
  {
    AmountDigitsGrammar(cur);
  }

  lemma NoDigitInPart(w: seq<char>)
    requires !HasDigit(w)
    ensures DigitsOf(PartText(w)) == []
  {
    if HasDot(w) {
      var d := SpanNotIn(w, ".");
      assert w == w[..d + 1] + PartText(w);
      NoDigitInSuffix(w[..d + 1], PartText(w));
    }
  }

  lemma {:induction false} NoDigitInSuffix(x: seq<char>, y: seq<char>)
    requires !HasDigit(x + y)
    ensures DigitsOf(y) == []
  {
    if y != [] {
      var u := y[..|y| - 1];
      assert x + y == (x + u) + [y[|y| - 1]];
      DigitsOfSnoc(x + u, y[|y| - 1]);
      assert y == u + [y[|y| - 1]];
      DigitsOfSnoc(u, y[|y| - 1]);
      NoDigitInSuffix(x, u);
    }
  }

  lemma {:induction false} DigitsOfDigits(w: seq<char>)
    requires AllDigits(w)
    ensures DigitsOf(w) == w
  {
    if w != [] {
      DigitsOfDigits(w[..|w| - 1]);
      assert w == w[..|w| - 1] + [w[|w| - 1]];
    }
  }

  lemma {:induction false} HasDigitPrefix(w: seq<char>, i: nat)
    requires i <= |w| && HasDigit(w[..i])
    ensures HasDigit(w)
    decreases |w| - i
  {
    if i < |w| {
      assert w[..i + 1] == w[..i] + [w[i]];
      DigitsOfSnoc(w[..i], w[i]);
      HasDigitPrefix(w, i + 1);
    } else {
      assert w[..i] == w;
    }
  }

  /** A plain decimal number: digits, one '.', digits. */
  lemma DecimalRun(x: seq<char>, y: seq<char>)
    requires AllDigits(x) && AllDigits(y) && x != []
    ensures DotsAccepted(x + ['.'] + y)
    ensures WholeText(x + ['.'] + y) == x && PartText(x + ['.'] + y) == y
    ensures AmountOf(x + ['.'] + y) == Amount(DigitsValue(x), DigitsValue(y), true, false)
  {
    var w := x + ['.'] + y;
    assert SpanNotIn(w, ".") == |x| by {
      assert forall i :: 0 <= i < |x| ==> w[i] == x[i];
      SpanNotInStop(w, ".", |x|);
    }
    assert WholeText(w) == x && PartText(w) == y;
    assert '.' !in y;
    DigitsOfDigits(x);
    DigitsOfDigits(y);
    HasDigitPrefix(w, |x|);
  }

  lemma TwoDigits(a: char, b: char)
    requires IsDigit(a) && IsDigit(b)
    ensures DigitsValue([a, b]) == (a as int - '0' as int) * 10 + (b as int - '0' as int)
  {
    assert [a, b][..1] == [a] && [a][..0] == [];
    assert DigitsValue([a]) == a as int - '0' as int;
  }

  /** "20.00" is twenty dollars, 200000 ten-thousandths. */
  lemma TwentyDollars()
    ensures var w := ['2', '0'] + ['.'] + ['0', '0'];
      DotsAccepted(w) && AmountValue(AmountOf(w), false, 0) == Ok(200000)
  {
    var w := ['2', '0'] + ['.'] + ['0', '0'];
    assert DotsAccepted(w) && AmountOf(w) == Amount(20, 0, true, false) by {
      DecimalRun(['2', '0'], ['0', '0']);
      TwoDigits('2', '0');
      TwoDigits('0', '0');
    }
  }

  /** A zero in front of the fractional digits changes nothing. */
  lemma {:induction false} LeadingZero(y: seq<char>)
    ensures DigitsValue(['0'] + y) == DigitsValue(y)
  {
    if y != [] {
      var u := y[..|y| - 1];
      assert (['0'] + y)[..|y|] == ['0'] + u;
      LeadingZero(u);
    } else {
      assert (['0'] + y)[..0] == [];
    }
  }

  /**
   * The fractional part is scaled by its value and not by its number of digits: a zero right
   * after the '.' is lost, so "0.05" reads as fifty cents, the same as "0.5".
   */
  lemma FractionScaledByValue(x: seq<char>, y: seq<char>)
    requires AllDigits(x) && AllDigits(y) && x != []
    ensures AmountOf(x + ['.', '0'] + y) == AmountOf(x + ['.'] + y)
  {
    assert x + ['.', '0'] + y == x + ['.'] + (['0'] + y);
    DecimalRun(x, ['0'] + y);
    DecimalRun(x, y);
    LeadingZero(y);
  }

  /** Two fractional digits are scaled by ten only: "0.99" is 990 ten-thousandths. */
  lemma NinetyNineHundredths()
    ensures var w := ['0'] + ['.'] + ['9', '9']; AmountValue(AmountOf(w), false, 0) == Ok(990)
  {
    var w := ['0'] + ['.'] + ['9', '9'];
    assert AmountOf(w) == Amount(0, 99, true, false) by {
      DecimalRun(['0'], ['9', '9']);
      TwoDigits('9', '9');
      assert ['0'][..0] == [];
    }
  }

  /** A '.' with no digit before it is refused: ".5" is ErrBadAmount. */
  lemma LeadingDotRefused()
    ensures !DotsAccepted(".5")
  {
    var w := ".5";
    assert SpanNotIn(w, ".") == 0;
    assert WholeText(w) == [];
  }

  // ---------------------------------------------------------------------------------------
  // What the account loop reads

  /** Position i of s ends an account name: a tab, a newline, or two spaces. */
  predicate AccountEndAt(s: seq<char>, i: nat)
    requires i < |s|
  {
    s[i] == '\t' || s[i] == '\n' || (s[i] == ' ' && i + 1 < |s| && s[i + 1] == ' ')
  }

  /** The first position from i on that ends an account name, or |s| when there is none. */
  function AccountLength(s: seq<char>, i: nat): (k: nat)
    requires i <= |s|
    ensures i <= k <= |s|
    ensures forall j :: i <= j < k ==> !AccountEndAt(s, j)
    ensures k < |s| ==> AccountEndAt(s, k)
    decreases |s| - i
  {
    if i == |s| || AccountEndAt(s, i) then i else AccountLength(s, i + 1)
  }

  /** The reader j characters in sees an account end exactly where the text has one. */
  lemma AccountEndSkip(cur: Cursor, j: nat)
    requires cur.Valid() && j < |cur.rest|
    ensures AccountEnd(Skip(cur, j)) <==> AccountEndAt(cur.rest, j)
  {
    var here := Skip(cur, j);
    assert here.rest == cur.rest[j..] && here.c == cur.rest[j];
  }

  /** The account loop from position j, with the first j characters in the buffer. */
  lemma {:induction false} AccountLoopFrom(cur: Cursor, j: nat)
    requires cur.Valid() && j < |cur.rest| && j <= AccountLength(cur.rest, 0)
    ensures var s := cur.rest; var k := AccountLength(s, 0);
      AccountLoop(Skip(cur, j), s[..j]) ==
        if k < |s| then Ok(Parsed(s[..k], Skip(cur, k))) else Err(ErrUnexpectedEnd(Skip(cur, |s|).line))
    decreases |cur.rest| - j
  {
    var s := cur.rest;
    AccountEndSkip(cur, j);
    if j < AccountLength(s, 0) {
      SkipNext(cur, j);
      if j + 1 < |s| {
        assert s[..j] + [Skip(cur, j).c] == s[..j + 1] by {
          assert Skip(cur, j).c == s[j];
        }
        AccountLoopFrom(cur, j + 1);
      }
    }
  }

  /**
   * The account name is the text up to the first tab, newline or pair of spaces; a name that
   * would run to the end of the input is ErrUnexpectedEnd and an empty one ErrMalformed.
   */
  lemma AccountGrammar(cur: Cursor)
    requires cur.Valid() && cur.rest != []
    ensures var s := cur.rest; var k := AccountLength(s, 0);
      AccountSpec(cur) ==
        if k == |s| then Err(ErrUnexpectedEnd(Skip(cur, |s|).line))
        else if k == 0 then Err(ErrMalformed(cur.line))
        else Ok(Parsed(s[..k], Skip(cur, k)))
  {
    assert cur.rest[..0] == [];
    AccountLoopFrom(cur, 0);
  }

  /** Without a note, the line must end right after the blanks (the second Eat finds none). */
  lemma PostingNoteBare(p: Posting, cur: Cursor)
    requires cur.Valid()
    requires EatSpec(cur, Blanks).rest != [] && EatSpec(cur, Blanks).c != ';'
    ensures var e := EatSpec(cur, Blanks);
      && (PostingNote(p, cur).Ok? <==> e.c == '\n')
      && (e.c == '\n' ==> PostingNote(p, cur) == Ok(Parsed(p, Next(e))))
  {
    var e := EatSpec(cur, Blanks);
    assert EatSpec(e, Blanks) == e by {
      EatEat(cur, Blanks);
    }
    assert PostingNote(p, cur) == if e.c == '\n' then Ok(Parsed(p, Next(e))) else Err(ErrMalformed(e.line));
  }

  /** A note is read up to the newline, which must exist. */
  lemma PostingNoteComment(p: Posting, cur: Cursor)
    requires cur.Valid()
    requires EatSpec(cur, Blanks).rest != [] && EatSpec(cur, Blanks).c == ';'
    ensures PostingNote(p, cur).Ok? <==> '\n' in Next(EatSpec(cur, Blanks)).rest
  {
    var n := Next(EatSpec(cur, Blanks));
    var k := SpanNotIn(n.rest, "\n");
    assert EatUntilSpec(n, "\n").rest == n.rest[k..];
    if '\n' in n.rest {
      var i :| 0 <= i < |n.rest| && n.rest[i] == '\n';
      assert k <= i;
    }
  }

  /**
   * The end of a posting line: after the blanks only a note or the newline may follow (the
   * second Eat of the code finds no blank left), and a note needs a newline after it.
   */
  lemma PostingNoteGrammar(p: Posting, cur: Cursor)
    requires cur.Valid()
    ensures var e := EatSpec(cur, Blanks);
      e.rest != [] && e.c != ';' ==> (PostingNote(p, cur).Ok? <==> e.c == '\n')
    ensures var e := EatSpec(cur, Blanks);
      e.rest != [] && e.c == '\n' ==> PostingNote(p, cur) == Ok(Parsed(p, Next(e)))
    ensures var e := EatSpec(cur, Blanks);
      e.rest != [] && e.c == ';' ==> (PostingNote(p, cur).Ok? <==> '\n' in Next(e).rest)
    ensures EatSpec(cur, Blanks).rest == [] ==> PostingNote(p, cur).Err?
  {
    var e := EatSpec(cur, Blanks);
    if e.rest != [] && e.c == ';' {
      PostingNoteComment(p, cur);
    } else if e.rest != [] {
      PostingNoteBare(p, cur);
    }
  }

  // ---------------------------------------------------------------------------------------
  // Two defects of the amount loop, as written and corrected

  /** An amount that ends the input with ',' never ends: the loop stays on the stale ','. */
  lemma CommaAtEndNeverEnds()
    ensures AmountLoop(Cursor("1,", '1', 0), NoAmount) == Err(AmountNeverEnds(0))
  {
    var c0 := Cursor("1,", '1', 0);
    var c1 := Next(c0);
    assert c1 == Cursor(",", ',', 0);
    var c2 := Next(c1);
    assert c2 == Cursor([], ',', 0);
    assert AmountStep(c2, AddDigit(NoAmount, '1')) == Err(AmountNeverEnds(0));
  }

  /** The ',' branch as intended: like a digit, the EOF reached by Next ends the loop with an error. */
  function AmountStepFixed(cur: Cursor, a: Amount): (r: Result<Parsed<Amount>, ParseError>)
    requires cur.Valid() && AmountChar(cur)
    ensures r.Ok? ==> r.value.cur.Valid()
    ensures r.Ok? ==> |r.value.cur.rest| < |cur.rest| || (r.value.cur.rest == cur.rest && !a.inPart && r.value.value.inPart)
  {
    if cur.c == '.' then
      if a.inPart || a.isNull then Err(ErrBadAmount(cur.line)) else Ok(Parsed(a.(inPart := true), Next(cur)))
    else if cur.c == ',' then
      var n := Next(cur);
      if n.rest == [] then Err(ErrUnexpectedEnd(n.line)) else Ok(Parsed(a, n))
    else
      var n := Next(cur);
      if n.rest == [] then Err(ErrUnexpectedEnd(n.line)) else Ok(Parsed(AddDigit(a, cur.c), n))
  }

  function AmountLoopFixed(cur: Cursor, a: Amount): (r: Result<Parsed<Amount>, ParseError>)
    requires cur.Valid()
    decreases |cur.rest|, if a.inPart then 0 else 1
  {
    if !AmountChar(cur) then Ok(Parsed(a, cur))
    else
      match AmountStepFixed(cur, a)
      case Err(e) => Err(e)
      case Ok(p) => AmountLoopFixed(p.cur, p.value)
  }

  /**
   * The corrected loop always ends with an outcome of the parser: where the loop as written
   * never ends it reports the unexpected end of the input on the same line, and everywhere
   * else the two agree.
   */
  lemma {:induction false} AmountLoopFixedAgrees(cur: Cursor, a: Amount)
    requires cur.Valid()
    ensures var r := AmountLoop(cur, a);
      r.Err? && r.error.AmountNeverEnds? ==> AmountLoopFixed(cur, a) == Err(ErrUnexpectedEnd(r.error.line))
    ensures var r := AmountLoop(cur, a);
      !(r.Err? && r.error.AmountNeverEnds?) ==> AmountLoopFixed(cur, a) == r
    ensures !(AmountLoopFixed(cur, a).Err? && AmountLoopFixed(cur, a).error.AmountNeverEnds?)
    decreases |cur.rest|, if a.inPart then 0 else 1
  {
    if AmountChar(cur) {
      if cur.c == ',' && Next(cur).rest == [] {
        var n := Next(cur);
        assert n.c == ',' && n.line == cur.line;
        if cur.rest != [] {
          assert AmountStep(cur, a) == Ok(Parsed(a, n));
          assert AmountLoop(n, a) == Err(AmountNeverEnds(n.line));
        }
      } else {
        assert AmountStepFixed(cur, a) == AmountStep(cur, a);
        if AmountStep(cur, a).Ok? {
          var p := AmountStep(cur, a).value;
          AmountLoopFixedAgrees(p.cur, p.value);
        }
      }
    }
  }

  /** The value of a decimal fraction of n digits is scaled to ten-thousandths by 10^(4 - n). */
  function Pow10(n: nat): (r: nat)
    ensures r >= 1
  {
    if n == 0 then 1 else 10 * Pow10(n - 1)
  }

  lemma {:induction false} Pow10Add(m: nat, n: nat)
    ensures Pow10(m) * Pow10(n) == Pow10(m + n)
  {
    if m > 0 {
      Pow10Add(m - 1, n);
      assert Pow10(m) * Pow10(n) == 10 * (Pow10(m - 1) * Pow10(n));
    }
  }

  /** Whatever the size of the fraction 9, the switch on its value scales it by 100, not 1000. */
  lemma NineTenthsScaled()
    ensures AmountValue(AmountOf(['0'] + ['.'] + ['9']), false, 0) == Ok(900)
  {
    var w := ['0'] + ['.'] + ['9'];
    assert AmountOf(w) == Amount(0, 9, true, false) by {
      DecimalRun(['0'], ['9']);
      assert ['0'][..0] == [] && ['9'][..0] == [];
    }
  }

  /** The fractional digits y as intended: scaled by their count, so y reads as y / 10^|y| dollars. */
  function ScalePartFixed(y: seq<char>): int
    requires AllDigits(y) && |y| <= 4
  {
    DigitsValue(y) * Pow10(4 - |y|)
  }

  /** The corrected scaling is exact: the fraction y of a dollar is ScalePartFixed(y) ten-thousandths. */
  lemma ScalePartFixedExact(y: seq<char>)
    requires AllDigits(y) && |y| <= 4
    ensures ScalePartFixed(y) * Pow10(|y|) == DigitsValue(y) * 10000
  {
    Pow10Add(4 - |y|, |y|);
    assert Pow10(4) == 10000;
    assert ScalePartFixed(y) * Pow10(|y|) == DigitsValue(y) * (Pow10(4 - |y|) * Pow10(|y|));
  }

  /** The two scalings agree except where the fraction's value has fewer digits than the text. */
  lemma ScalePartNine()
    ensures ScalePartFixed(['9']) == 9000 && ScalePart(DigitsValue(['9'])) == 900
  {
    assert ['9'][..0] == [];
    assert DigitsValue(['9']) == 9;
    assert Pow10(3) == 1000;
  }

  // ---------------------------------------------------------------------------------------
  // The amount body with the corrected scaling

  lemma {:induction false} DigitsOfAllDigits(w: seq<char>)
    ensures AllDigits(DigitsOf(w))
  {
    if w != [] {
      DigitsOfAllDigits(w[..|w| - 1]);
    }
  }

  /** The number of fractional digits of the run w, the commas left out. */
  function Places(w: seq<char>): nat
  {
    |DigitsOf(PartText(w))|
  }

  /**
   * The fixed-point value as intended: the fractional digits are scaled by their count, and a
   * fraction of more than four digits, which ten-thousandths cannot hold, is ErrBadAmount.
   */
  function AmountValueFixed(a: Amount, places: nat, neg: bool, line: int): Result<int, ParseError>
  {
    if places > 4 then Err(ErrBadAmount(line))
    else
      var v := a.whole * 10000 + a.part * Pow10(4 - places);
      Ok(if neg then -v else v)
  }

  /** After the loop, corrected: the null amount as before, otherwise the corrected value. */
  function AfterLoopFixed(p: Parsed<Amount>, places: nat, neg: bool): Result<Parsed<(int, bool)>, ParseError>
  {
    if p.value.isNull then Ok(Parsed((0, true), p.cur))
    else
      match AmountValueFixed(p.value, places, neg, p.cur.line)
      case Err(e) => Err(e)
      case Ok(v) => Ok(Parsed((v, false), p.cur))
  }

  /** The amount after its sign with the corrected scaling, the places counted on the run read. */
  function AmountBodyFixed(cur: Cursor, neg: bool): Result<Parsed<(int, bool)>, ParseError>
    requires cur.Valid()
  {
    match AmountLoop(cur, NoAmount)
    case Err(e) => Err(e)
    case Ok(p) => AfterLoopFixed(p, Places(cur.rest[..|cur.rest| - |p.cur.rest|]), neg)
  }

  /**
   * The corrected amount body reads the same run as the one as written and differs only in the
   * value: the run's accumulators and its number of places decide it.
   */
  lemma AmountBodyFixedReadsRun(cur: Cursor, neg: bool)
    requires cur.Valid() && cur.rest != []
    requires AmountSpan(cur.rest) < |cur.rest| && DotsAccepted(cur.rest[..AmountSpan(cur.rest)])
    ensures var k := AmountSpan(cur.rest); var w := cur.rest[..k];
      && AmountBodyFixed(cur, neg) == AfterLoopFixed(Parsed(AmountOf(w), Skip(cur, k)), Places(w), neg)
      && AmountBody(cur, neg) == AfterLoop(Parsed(AmountOf(w), Skip(cur, k)), neg)
  {
    var k := AmountSpan(cur.rest);
    var p := Parsed(AmountOf(cur.rest[..k]), Skip(cur, k));
    assert AmountLoop(cur, NoAmount) == Ok(p) by {
      AmountDigitsGrammar(cur);
    }
    assert |cur.rest| - |p.cur.rest| == k;
    AmountBodyReadsRun(cur, neg);
  }

  /**
   * The corrected value of a run w with a digit: Ok exactly when its fractional digits y are at
   * most four, and then its whole digits in ten-thousandths plus ScalePartFixed(y), negated for
   * a '-'.
   */
  lemma AmountValueFixedOf(w: seq<char>, neg: bool, line: int)
    ensures var y := DigitsOf(PartText(w));
      && AllDigits(y)
      && (AmountValueFixed(AmountOf(w), Places(w), neg, line).Ok? <==> |y| <= 4)
      && (|y| <= 4 ==> var v := DigitsValue(DigitsOf(WholeText(w))) * 10000 + ScalePartFixed(y);
            AmountValueFixed(AmountOf(w), Places(w), neg, line) == Ok(if neg then -v else v))
  {
    DigitsOfAllDigits(PartText(w));
  }

  /**
   * The corrected amount of a plain decimal x '.' y: the whole digits in ten-thousandths plus
   * ScalePartFixed(y), negated for a '-'.
   */
  lemma AmountFixedDecimal(x: seq<char>, y: seq<char>, neg: bool, line: int)
    requires AllDigits(x) && AllDigits(y) && x != [] && |y| <= 4
    ensures var w := x + ['.'] + y; var v := DigitsValue(x) * 10000 + ScalePartFixed(y);
      && DotsAccepted(w) && HasDigit(w)
      && AmountValueFixed(AmountOf(w), Places(w), neg, line) == Ok(if neg then -v else v)
  {
    var w := x + ['.'] + y;
    DecimalRun(x, y);
    assert HasDigit(w) by {
      assert !AmountOf(w).isNull;
    }
    assert Places(w) == |y| by {
      DigitsOfDigits(y);
    }
    DecimalValueFixed(AmountOf(w), Places(w), x, y, neg, line);
  }

  lemma DecimalValueFixed(a: Amount, places: nat, x: seq<char>, y: seq<char>, neg: bool, line: int)
    requires a.whole == DigitsValue(x) && a.part == DigitsValue(y) && places == |y|
    requires AllDigits(y) && |y| <= 4
    ensures var v := DigitsValue(x) * 10000 + ScalePartFixed(y);
      AmountValueFixed(a, places, neg, line) == Ok(if neg then -v else v)
  {
  }

  /** Corrected, "0.9" is ninety cents, 9000 ten-thousandths, where as written it is 900. */
  lemma NineTenthsFixed()
    ensures var w := ['0'] + ['.'] + ['9']; AmountValueFixed(AmountOf(w), Places(w), false, 0) == Ok(9000)
  {
    NineDigits();
    AmountFixedDecimal(['0'], ['9'], false, 0);
  }

  lemma NineDigits()
    ensures DigitsValue(['0']) == 0 && ScalePartFixed(['9']) == 9000
  {
    assert ['0'][..0] == [];
    ScalePartNine();
  }

  /** Corrected, "0.05" is five cents, 500 ten-thousandths. */
  lemma FiveHundredthsFixed()
    ensures var w := ['0'] + ['.'] + ['0', '5']; AmountValueFixed(AmountOf(w), Places(w), false, 0) == Ok(500)
  {
    FiveDigits();
    AmountFixedDecimal(['0'], ['0', '5'], false, 0);
  }

  /** As written, "0.05" is fifty cents: the zero after the '.' is lost. */
  lemma FiveHundredthsScaled()
    ensures AmountValue(AmountOf(['0'] + ['.'] + ['0', '5']), false, 0) == Ok(5000)
  {
    var w := ['0'] + ['.'] + ['0', '5'];
    assert AmountOf(w) == Amount(0, 5, true, false) by {
      DecimalRun(['0'], ['0', '5']);
      FiveDigits();
    }
    FiveDigits();
  }

  lemma FiveDigits()
    ensures DigitsValue(['0']) == 0 && DigitsValue(['0', '5']) == 5
    ensures ScalePartFixed(['0', '5']) == 500 && ScalePart(5) == 5000
  {
    assert ['0'][..0] == [];
    TwoDigits('0', '5');
    assert Pow10(2) == 100;
  }
}
