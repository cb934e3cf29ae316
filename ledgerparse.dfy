/**
 * ParseLedger and ParseLedgerRaw (parse/parse.go): the loop over the entries of a ledger
 * file, the header line of a transaction, and the loop over its indented lines.
 */
module LedgerParser {
  import opened Wrappers
  import opened Chars
  import opened Ledger
  import opened Parser
  import Comments
  import Postings
  import Lexer

  // ---------------------------------------------------------------------------------------
  // The header line

  /** The header: the date, then an optional "=date" clear date. */
  function HeaderSpec(cur: Cursor): (r: Result<Parsed<Transaction>, ParseError>)
    requires cur.Valid()
    ensures r.Ok? ==> r.value.cur.Valid()
    ensures r.Ok? ==> |r.value.cur.rest| < |cur.rest|
  {
    match DateSpec(cur)
    case Err(e) => Err(e)
    case Ok(d) =>
      var t := NewTransaction(cur.line).(date := d.value);
      if d.cur.c == '=' then
        match DateSpec(Next(d.cur))
        case Err(e) => Err(e)
        case Ok(cd) => HeaderStatus(t.(clearDate := cd.value), cd.cur)
      else HeaderStatus(t, d.cur)
  }

  /** Blanks, then the optional status mark. */
  function HeaderStatus(t: Transaction, cur: Cursor): (r: Result<Parsed<Transaction>, ParseError>)
    requires cur.Valid()
    ensures r.Ok? ==> r.value.cur.Valid()
    ensures r.Ok? ==> |r.value.cur.rest| < |cur.rest|
  {
    var e := EatSpec(cur, Blanks);
    if e.rest == [] then Err(ErrUnexpectedEnd(e.line))
    else
      var st := Postings.StatusMark(e);
      HeaderBlanks(t.(status := st.value), st.cur)
  }

  /** The blanks after the status mark. */
  function HeaderBlanks(t: Transaction, cur: Cursor): (r: Result<Parsed<Transaction>, ParseError>)
    requires cur.Valid()
    ensures r.Ok? ==> r.value.cur.Valid()
    ensures r.Ok? ==> |r.value.cur.rest| < |cur.rest|
  {
    var e := EatSpec(cur, Blanks);
    if e.rest == [] then Err(ErrUnexpectedEnd(e.line)) else HeaderCode(t, e)
  }

  /** The optional code in parentheses; a code cut off by the end of the line is ErrMalformed. */
  function HeaderCode(t: Transaction, cur: Cursor): (r: Result<Parsed<Transaction>, ParseError>)
    requires cur.Valid()
    ensures r.Ok? ==> r.value.cur.Valid()
    ensures r.Ok? ==> |r.value.cur.rest| < |cur.rest|
  {
    if cur.c == '(' then
      match ReadUntilTrimmedSpec(EatSpec(Next(cur), Blanks), ")\n")
      case Err(e) => Err(e)
      case Ok(c) =>
        if c.cur.c == '\n' then Err(ErrMalformed(c.cur.line))
        else HeaderDescription(t.(code := c.value), Next(c.cur))
    else HeaderDescription(t, cur)
  }

  /** Blanks, then the description up to the end of the line. */
  function HeaderDescription(t: Transaction, cur: Cursor): (r: Result<Parsed<Transaction>, ParseError>)
    requires cur.Valid()
    ensures r.Ok? ==> r.value.cur.Valid()
    ensures r.Ok? ==> |r.value.cur.rest| < |cur.rest|
  {
    var e := EatSpec(cur, Blanks);
    if e.rest == [] then Err(ErrUnexpectedEnd(e.line))
    else
      match ReadUntilTrimmedSpec(e, "\n")
      case Err(err) => Err(err)
      case Ok(d) => Ok(Parsed(t.(description := d.value), Next(d.cur)))
  }

  // ---------------------------------------------------------------------------------------
  // The indented lines

  /** One pass of the posting loop: the blanks, then an attached comment or a posting. */
  function BodyStep(cur: Cursor, t: Transaction): (r: Result<Parsed<Transaction>, ParseError>)
    requires cur.Valid()
    ensures r.Ok? ==> r.value.cur.Valid()
    ensures r.Ok? ==> |r.value.cur.rest| < |cur.rest|
  {
    var e := EatSpec(cur, Blanks);
    if e.rest == [] then Err(ErrUnexpectedEnd(e.line))
    else if e.c == ';' then Comments.AttachedComment(e, t)
    else
      match Postings.PostingSpec(e)
      case Err(err) => Err(err)
      case Ok(p) => Ok(Parsed(t.(postings := t.postings + [p.value]), p.cur))
  }

  /** The loop `for cr.Match(" \t")`: it runs while the next line is indented. */
  function BodyLoop(cur: Cursor, t: Transaction): (r: Result<Parsed<Transaction>, ParseError>)
    requires cur.Valid()
    ensures r.Ok? ==> r.value.cur.Valid()
    ensures r.Ok? ==> |r.value.cur.rest| <= |cur.rest|
    decreases |cur.rest|
  {
    if !(cur.rest != [] && cur.c in Blanks) then Ok(Parsed(t, cur))
    else
      match BodyStep(cur, t)
      case Err(err) => Err(err)
      case Ok(p) => BodyLoop(p.cur, p.value)
  }

  /** One transaction: the header line and the indented lines below it. */
  function TransactionSpec(cur: Cursor): (r: Result<Parsed<Transaction>, ParseError>)
    requires cur.Valid()
    ensures r.Ok? ==> r.value.cur.Valid()
    ensures r.Ok? ==> |r.value.cur.rest| < |cur.rest|
  {
    match HeaderSpec(cur)
    case Err(e) => Err(e)
    case Ok(h) => BodyLoop(h.cur, h.value)
  }

  // ---------------------------------------------------------------------------------------
  // The file

  /**
   * One pass of the loop of ParseLedgerRaw, after the blanks: a blank line or an unattached
   * comment line is skipped (None), anything else is a transaction. C is examined even at EOF.
   */
  function EntryStep(cur: Cursor): (r: Result<Parsed<Option<Transaction>>, ParseError>)
    requires cur.Valid() && cur.rest != []
    ensures r.Ok? ==> r.value.cur.Valid()
    ensures r.Ok? ==> |r.value.cur.rest| < |cur.rest|
  {
    var e := EatSpec(cur, Blanks);
    if e.c == '\n' then Ok(Parsed(None, Next(e)))
    else if e.c == ';' then Ok(Parsed(None, Next(EatUntilSpec(e, "\n"))))
    else
      match TransactionSpec(e)
      case Err(err) => Err(err)
      case Ok(p) => Ok(Parsed(Some(p.value), p.cur))
  }

  /** The loop `for !cr.EOF` of ParseLedgerRaw; the first error ends the parse. */
  function LedgerLoop(cur: Cursor, acc: seq<Transaction>): (r: Result<seq<Transaction>, ParseError>)
    requires cur.Valid()
    decreases |cur.rest|
  {
    if cur.rest == [] then Ok(acc)
    else
      match EntryStep(cur)
      case Err(err) => Err(err)
      case Ok(p) => LedgerLoop(p.cur, if p.value.Some? then acc + [p.value.value] else acc)
  }

  /** ParseLedger: the reader starts on line 1. */
  function ParseLedgerSpec(input: string): Result<seq<Transaction>, ParseError>
  {
    LedgerLoop(Start(input, 1), [])
  }

  // ---------------------------------------------------------------------------------------
  // Properties of the grammar

  /**
   * A code in parentheses runs, after the blanks that follow '(', up to the first ')' or '\n':
   * a '\n' first is ErrMalformed on the line of that '\n', no terminator at all is an unexpected
   * end, and after ')' the description is read with the trimmed code recorded.
   */
  lemma HeaderCodeGrammar(t: Transaction, cur: Cursor, k: nat, p: nat)
    requires cur.Valid() && cur.rest != [] && cur.c == '('
    requires k == SpanNotIn(EatSpec(Next(cur), Blanks).rest, ")\n") && p == k + 1
    ensures var e := EatSpec(Next(cur), Blanks); var s := e.rest;
      && (k == |s| ==> HeaderCode(t, cur) == Err(ErrUnexpectedEnd(Skip(e, k).line)))
      && (k < |s| && s[k] == '\n' ==> HeaderCode(t, cur) == Err(ErrMalformed(Skip(e, k).line)))
      && (k < |s| && s[k] == ')' ==>
            HeaderCode(t, cur) == HeaderDescription(t.(code := TrimLeading(TrimTrailing(s[..k]), 0)), Skip(e, p)))
  {
    var e := EatSpec(Next(cur), Blanks);
    if k < |e.rest| {
      NextAt(e, k, p);
    }
  }

  /** What one pass adds to the list: the transaction it read, if any. */
  function Found(o: Option<Transaction>): (r: seq<Transaction>)
    ensures |r| <= 1
  {
    if o.Some? then [o.value] else []
  }

  /** One pass of the loop of ParseLedgerRaw, for a given outcome r of the pass. */
  lemma LedgerLoopStep(cur: Cursor, acc: seq<Transaction>, r: Result<Parsed<Option<Transaction>>, ParseError>)
    requires cur.Valid() && cur.rest != [] && r == EntryStep(cur)
    ensures r.Err? ==> LedgerLoop(cur, acc) == Err(r.error)
    ensures r.Ok? ==> LedgerLoop(cur, acc) == LedgerLoop(r.value.cur, acc + Found(r.value.value))
  {
    assert acc + [] == acc;
  }

  /** The step of LedgerLoopAcc, on the results alone. */
  lemma AccJoin(acc: seq<Transaction>, xs: seq<Transaction>, whole: Result<seq<Transaction>, ParseError>,
                empty: Result<seq<Transaction>, ParseError>, tail: Result<seq<Transaction>, ParseError>)
    requires tail.Ok? ==> whole.Ok? && empty.Ok?
    requires tail.Ok? ==> whole.value == acc + xs + tail.value && empty.value == [] + xs + tail.value
    requires tail.Err? ==> whole == tail && empty == tail
    ensures whole.Ok? <==> empty.Ok?
    ensures whole.Ok? ==> whole.value == acc + empty.value
    ensures whole.Err? ==> whole == empty
  {
    if tail.Ok? {
      assert [] + xs + tail.value == xs + tail.value;
      assert acc + xs + tail.value == acc + (xs + tail.value);
    }
  }

  /**
   * The entries read so far do not influence the rest of the parse: the loop's result is the
   * entries read so far followed by those a fresh loop finds, and its error is the fresh one.
   */
  lemma {:induction false} LedgerLoopAcc(cur: Cursor, acc: seq<Transaction>)
    requires cur.Valid()
    ensures LedgerLoop(cur, acc).Ok? <==> LedgerLoop(cur, []).Ok?
    ensures LedgerLoop(cur, acc).Ok? ==> LedgerLoop(cur, acc).value == acc + LedgerLoop(cur, []).value
    ensures LedgerLoop(cur, acc).Err? ==> LedgerLoop(cur, acc) == LedgerLoop(cur, [])
    decreases |cur.rest|
  {
    if cur.rest != [] {
      var r := EntryStep(cur);
      LedgerLoopStep(cur, acc, r);
      LedgerLoopStep(cur, [], r);
      if r.Ok? {
        var xs := Found(r.value.value);
        LedgerLoopAcc(r.value.cur, acc + xs);
        LedgerLoopAcc(r.value.cur, [] + xs);
        AccJoin(acc, xs, LedgerLoop(cur, acc), LedgerLoop(cur, []), LedgerLoop(r.value.cur, []));
      }
    }
  }

  /** Blanks hold no '\n': the first '\n' after them is the first '\n' of the text. */
  lemma NewlineAfterBlanks(s: seq<char>, k: nat)
    requires k == SpanIn(s, Blanks)
    ensures k + SpanNotIn(s[k..], "\n") == SpanNotIn(s, "\n")
    ensures k < |s| && s[k] == '\n' ==> SpanNotIn(s, "\n") == k
  {
    SpanNotInFrom(s, "\n", k);
    assert forall i :: 0 <= i < k ==> s[i] in Blanks;
    SpanNotInAt(s, "\n", k + SpanNotIn(s[k..], "\n"));
    if k < |s| && s[k] == '\n' {
      assert s[k..][0] == '\n';
    }
  }

  lemma EntryNewline(cur: Cursor, k: nat, q: Cursor)
    requires cur.Valid() && k == SpanIn(cur.rest, Blanks) && k < |cur.rest| && cur.rest[k] == '\n'
    requires q == Next(Skip(cur, k))
    ensures EntryStep(cur) == Ok(Parsed(None, q))
  {
    assert EatSpec(cur, Blanks).c == '\n';
  }

  lemma EntryComment(cur: Cursor, u: Cursor, q: Cursor)
    requires cur.Valid() && EatSpec(cur, Blanks).rest != [] && EatSpec(cur, Blanks).rest[0] == ';'
    requires u == EatUntilSpec(EatSpec(cur, Blanks), "\n") && q == Next(u)
    ensures EntryStep(cur) == Ok(Parsed(None, q))
  {
  }

  /** EatUntil("\n") after the blanks stops on the first '\n' of the line. */
  lemma EatUntilAfterBlanks(cur: Cursor, k: nat, n: nat)
    requires cur.Valid() && k == SpanIn(cur.rest, Blanks) && n == SpanNotIn(cur.rest, "\n")
    ensures EatUntilSpec(EatSpec(cur, Blanks), "\n") == Skip(cur, n)
  {
    var d: nat := SpanNotIn(cur.rest[k..], "\n");
    NewlineAfterBlanks(cur.rest, k);
    assert EatSpec(cur, Blanks).rest == cur.rest[k..];
    SkipSkip(cur, k, d);
  }

  /** One pass over a blank line or a ';' line: nothing is recorded and the reader moves past its '\n'. */
  lemma EntrySkipped(cur: Cursor, k: nat, n: nat, q: Cursor)
    requires cur.Valid() && k == SpanIn(cur.rest, Blanks) && k < |cur.rest|
    requires cur.rest[k] == '\n' || cur.rest[k] == ';'
    requires n == SpanNotIn(cur.rest, "\n") && q == Next(Skip(cur, n))
    ensures EntryStep(cur) == Ok(Parsed(None, q))
  {
    if cur.rest[k] == '\n' {
      NewlineAfterBlanks(cur.rest, k);
      EntryNewline(cur, k, q);
    } else {
      EatUntilAfterBlanks(cur, k, n);
      EntryComment(cur, Skip(cur, n), q);
    }
  }

  /**
   * A blank line, or a line whose first non-blank is ';', is skipped whole: the loop goes on
   * past its '\n' with nothing recorded, and such a line that ends the input ends the parse.
   */
  lemma SkippedLine(cur: Cursor, acc: seq<Transaction>, k: nat, n: nat, p: nat)
    requires cur.Valid() && k == SpanIn(cur.rest, Blanks) && k < |cur.rest|
    requires cur.rest[k] == '\n' || cur.rest[k] == ';'
    requires n == SpanNotIn(cur.rest, "\n") && p == n + 1
    ensures n < |cur.rest| ==> LedgerLoop(cur, acc) == LedgerLoop(Skip(cur, p), acc)
    ensures n == |cur.rest| ==> LedgerLoop(cur, acc) == Ok(acc)
  {
    var q := Next(Skip(cur, n));
    EntrySkipped(cur, k, n, q);
    if n < |cur.rest| {
      NextAt(cur, n, p);
    }
  }

  /**
   * As written, blanks at the very end of the input, with no '\n' after them, are read as the
   * start of a transaction whose date is missing: the parse fails with ErrBadDate.
   */
  lemma TrailingBlanksRefused(cur: Cursor, acc: seq<Transaction>)
    requires cur.Valid() && cur.rest != [] && forall i :: 0 <= i < |cur.rest| ==> cur.rest[i] in Blanks
    ensures LedgerLoop(cur, acc).Err? && LedgerLoop(cur, acc).error.ErrBadDate?
  {
    var e := EatSpec(cur, Blanks);
    SpanInStop(cur.rest, Blanks, |cur.rest|);
    assert e.rest == [] && e.c in Blanks;
    DateGrammar(e);
  }

  // ---------------------------------------------------------------------------------------
  // The methods

  /** The header line on the reader. */
  method ReadHeader(cr: Lexer.CharReader) returns (r: Result<Transaction, ParseError>)
    requires cr.Valid()
    modifies cr
    ensures cr.Valid()
    ensures Agrees(r, cr.State(), HeaderSpec(old(cr.State())))
  {
    var current := NewTransaction(cr.L);
    // The leading date(s)
    var date := ParseDate(cr);
    if date.Err? {
      return Err(date.error);
    }
    current := current.(date := date.value);
    if cr.C == '=' {
      cr.Next();
      var clear := ParseDate(cr);
      if clear.Err? {
        return Err(clear.error);
      }
      current := current.(clearDate := clear.value);
    }
    r := ReadHeaderStatus(cr, current);
  }

  method ReadHeaderStatus(cr: Lexer.CharReader, t: Transaction) returns (r: Result<Transaction, ParseError>)
    requires cr.Valid()
    modifies cr
    ensures cr.Valid()
    ensures Agrees(r, cr.State(), HeaderStatus(t, old(cr.State())))
  {
    cr.Eat(Blanks);
    if cr.EOF {
      return Err(ErrUnexpectedEnd(cr.L));
    }
    var st := Postings.ReadStatus(cr);
    r := ReadHeaderBlanks(cr, t.(status := st));
  }

  method ReadHeaderBlanks(cr: Lexer.CharReader, t: Transaction) returns (r: Result<Transaction, ParseError>)
    requires cr.Valid()
    modifies cr
    ensures cr.Valid()
    ensures Agrees(r, cr.State(), HeaderBlanks(t, old(cr.State())))
  {
    cr.Eat(Blanks);
    if cr.EOF {
      return Err(ErrUnexpectedEnd(cr.L));
    }
    r := ReadHeaderCode(cr, t);
  }

  method ReadHeaderCode(cr: Lexer.CharReader, t: Transaction) returns (r: Result<Transaction, ParseError>)
    requires cr.Valid()
    modifies cr
    ensures cr.Valid()
    ensures Agrees(r, cr.State(), HeaderCode(t, old(cr.State())))
  {
    var current := t;
    if cr.C == '(' {
      cr.Next();
      cr.Eat(Blanks);
      var code := ReadUntilTrimmed(cr, ")\n");
      if code.Err? {
        return Err(code.error);
      }
      if cr.C == '\n' {
        return Err(ErrMalformed(cr.L));
      }
      current := current.(code := code.value);
      cr.Next();
    }
    r := ReadDescription(cr, current);
  }

  method ReadDescription(cr: Lexer.CharReader, t: Transaction) returns (r: Result<Transaction, ParseError>)
    requires cr.Valid()
    modifies cr
    ensures cr.Valid()
    ensures Agrees(r, cr.State(), HeaderDescription(t, old(cr.State())))
  {
    cr.Eat(Blanks);
    if cr.EOF {
      return Err(ErrUnexpectedEnd(cr.L));
    }
    var desc := ReadUntilTrimmed(cr, "\n");
    if desc.Err? {
      return Err(desc.error);
    }
    cr.Next();
    return Ok(t.(description := desc.value));
  }

  /** One pass of the posting loop on the reader. */
  method ReadBodyLine(cr: Lexer.CharReader, t: Transaction) returns (r: Result<Transaction, ParseError>)
    requires cr.Valid()
    modifies cr
    ensures cr.Valid()
    ensures Agrees(r, cr.State(), BodyStep(old(cr.State()), t))
  {
    cr.Eat(Blanks);
    if cr.EOF {
      return Err(ErrUnexpectedEnd(cr.L));
    }
    if cr.C == ';' {
      // A comment attached to the transaction
      r := Comments.ParseAttachedComment(cr, t);
      return;
    }
    var post := Postings.ReadPosting(cr);
    if post.Err? {
      return Err(post.error);
    }
    return Ok(t.(postings := t.postings + [post.value]));
  }

  /** The posting loop on the reader. */
  method ReadBody(cr: Lexer.CharReader, t: Transaction) returns (r: Result<Transaction, ParseError>)
    requires cr.Valid()
    modifies cr
    ensures cr.Valid()
    ensures Agrees(r, cr.State(), BodyLoop(old(cr.State()), t))
  {
    var current := t;
    while cr.Match(Blanks)
      invariant cr.Valid()
      invariant BodyLoop(cr.State(), current) == BodyLoop(old(cr.State()), t)
      decreases |cr.State().rest|
    {
      var line := ReadBodyLine(cr, current);
      if line.Err? {
        return Err(line.error);
      }
      current := line.value;
    }
    return Ok(current);
  }

  method ReadTransaction(cr: Lexer.CharReader) returns (r: Result<Transaction, ParseError>)
    requires cr.Valid()
    modifies cr
    ensures cr.Valid()
    ensures Agrees(r, cr.State(), TransactionSpec(old(cr.State())))
  {
    var header := ReadHeader(cr);
    if header.Err? {
      return Err(header.error);
    }
    r := ReadBody(cr, header.value);
  }

  /** One pass of the loop of ParseLedgerRaw on the reader. */
  method ReadEntry(cr: Lexer.CharReader) returns (r: Result<Option<Transaction>, ParseError>)
    requires cr.Valid() && !cr.EOF
    modifies cr
    ensures cr.Valid()
    ensures Agrees(r, cr.State(), EntryStep(old(cr.State())))
  {
    // Leading blanks, and blank lines
    cr.Eat(Blanks);
    if cr.C == '\n' {
      cr.Next();
      return Ok(None);
    }
    // Comments that are not part of a transaction
    if cr.C == ';' {
      cr.EatUntil("\n");
      cr.Next();
      return Ok(None);
    }
    var current := ReadTransaction(cr);
    if current.Err? {
      return Err(current.error);
    }
    return Ok(Some(current.value));
  }

  /** ParseLedgerRaw. */
  method ParseLedgerRaw(cr: Lexer.CharReader) returns (r: Result<seq<Transaction>, ParseError>)
    requires cr.Valid()
    modifies cr
    ensures r == LedgerLoop(old(cr.State()), [])
  {
    var rtn := [];
    while !cr.EOF
      invariant cr.Valid()
      invariant LedgerLoop(cr.State(), rtn) == LedgerLoop(old(cr.State()), [])
      decreases |cr.State().rest|
    {
      var entry := ReadEntry(cr);
      if entry.Err? {
        return Err(entry.error);
      }
      if entry.value.Some? {
        rtn := rtn + [entry.value.value];
      }
    }
    return Ok(rtn);
  }

  /** ParseLedger. */
  method ParseLedger(input: string) returns (r: Result<seq<Transaction>, ParseError>)
    ensures r == ParseLedgerSpec(input)
  {
    var cr := new Lexer.CharReader(input, 1);
    r := ParseLedgerRaw(cr);
  }
}
