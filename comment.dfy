/**
 * The comment lines attached to a transaction (parse/parse.go, the ';' branch of the posting
 * loop). After the ';' and the blanks that follow it, a five-state machine reads the line up
 * to its '\n' and sorts it into tags, a key/value pair or a plain comment:
 *   0 nothing read yet, 1 the line began with ':' (tags), 2 a possible key is being read,
 *   3 a key and ": " were read (the value follows), 4 an ordinary comment.
 */
module Comments {
  import opened Wrappers
  import opened Chars
  import opened Ledger
  import Text
  import opened Parser
  import Lexer

  /** The loop variables state, ln and key, and the tags of the transaction being read. */
  datatype Machine = Machine(state: nat, ln: seq<char>, key: string, tags: set<string>)

  /** The EOF check that follows every Next of the loop. */
  function Checked(cur: Cursor, m: Machine): (r: Result<Parsed<Machine>, ParseError>)
    ensures r.Ok? ==> r.value.cur == cur && r.value.cur.rest != []
    ensures r.Err? ==> r.error == ErrUnexpectedEnd(cur.line)
  {
    if cur.rest == [] then Err(ErrUnexpectedEnd(cur.line)) else Ok(Parsed(m, cur))
  }

  /** One pass of the loop body, on the current character (never EOF inside the loop). */
  function Step(cur: Cursor, m: Machine): (r: Result<Parsed<Machine>, ParseError>)
    requires cur.Valid() && cur.rest != []
    ensures r.Ok? ==> r.value.cur.Valid() && r.value.cur.rest != [] && |r.value.cur.rest| < |cur.rest|
  {
    var c := cur.c;
    if m.state == 0 && c == ':' then Checked(Next(cur), m.(state := 1))
    else if m.state == 0 then Checked(Next(cur), m.(state := 2, ln := m.ln + [c]))
    else if m.state == 1 && c == ':' then
      var tag := Text.TrimSpace(m.ln);
      Checked(EatSpec(Next(cur), Blanks), if tag != "" then m.(tags := m.tags + {tag}, ln := []) else m)
    else if m.state == 1 then Checked(Next(cur), m.(ln := m.ln + [c]))
    else if m.state == 2 && c == ':' && |cur.rest| >= 2 && cur.rest[1] in Blanks then
      Checked(EatSpec(Next(cur), Blanks), m.(state := 3, key := m.ln, ln := []))
    else if m.state == 2 && (c == ':' || c in Blanks) then Checked(Next(cur), m.(state := 4, ln := m.ln + [c]))
    else Checked(Next(cur), m.(ln := m.ln + [c]))
  }

  /** The loop `for !cr.Match("\n")`: it stops on the '\n' that ends the line. */
  function Loop(cur: Cursor, m: Machine): (r: Result<Parsed<Machine>, ParseError>)
    requires cur.Valid() && cur.rest != []
    ensures r.Ok? ==> r.value.cur.Valid() && r.value.cur.rest != [] && |r.value.cur.rest| <= |cur.rest|
    decreases |cur.rest|
  {
    if cur.c == '\n' then Ok(Parsed(m, cur))
    else
      match Step(cur, m)
      case Err(e) => Err(e)
      case Ok(p) => Loop(p.cur, p.value)
  }

  predicate HasNonBlank(s: seq<char>) { exists i :: 0 <= i < |s| && !IsBlank(s[i]) }

  /** What the line leaves in the transaction; line is the reader's line past the '\n'. */
  function Finish(t: Transaction, m: Machine, line: int): Result<Transaction, ParseError>
  {
    var t1 := t.(tags := m.tags);
    if m.state == 1 then
      if HasNonBlank(m.ln) then Err(ErrMalformedTagLine(line)) else Ok(t1)
    else if m.state == 3 then Ok(t1.(kvPairs := t.kvPairs[m.key := Text.TrimSpace(m.ln)]))
    else if m.state == 2 || m.state == 4 then Ok(t1.(comments := t.comments + [Text.TrimSpace(m.ln)]))
    else Ok(t1)
  }

  /** The whole ';' branch, from the reader on the ';'. */
  function AttachedComment(cur: Cursor, t: Transaction): (r: Result<Parsed<Transaction>, ParseError>)
    requires cur.Valid() && cur.rest != []
    ensures r.Ok? ==> r.value.cur.Valid() && |r.value.cur.rest| < |cur.rest|
  {
    var e := EatSpec(Next(cur), Blanks);
    if e.rest == [] then Err(ErrUnexpectedEnd(e.line))
    else
      match Loop(e, Machine(0, [], "", t.tags))
      case Err(err) => Err(err)
      case Ok(p) =>
        var after := Next(p.cur);
        match Finish(t, p.value, after.line)
        case Err(err) => Err(err)
        case Ok(t1) => Ok(Parsed(t1, after))
  }

  /** One pass of the loop body on the reader. */
  method CommentStep(cr: Lexer.CharReader, m: Machine) returns (r: Result<Machine, ParseError>)
    requires cr.Valid() && !cr.EOF
    modifies cr
    ensures cr.Valid()
    ensures Agrees(r, cr.State(), Step(old(cr.State()), m))
  {
    // The first character is a colon, transition to state 1
    if m.state == 0 && cr.C == ':' {
      cr.Next();
      if cr.EOF {
        return Err(ErrUnexpectedEnd(cr.L));
      }
      return Ok(m.(state := 1));
    }
    // Anything else first, transition to state 2
    if m.state == 0 {
      r := AppendNext(cr, m, 2);
      return;
    }
    if m.state == 1 {
      r := TagStep(cr, m);
      return;
    }
    if m.state == 2 {
      r := KeyStep(cr, m);
      return;
    }
    // States 3 and 4: read the rest of the line
    r := AppendNext(cr, m, m.state);
  }

  /** The common tail of most branches: append C to ln, Next, and the EOF check. */
  method AppendNext(cr: Lexer.CharReader, m: Machine, state: nat) returns (r: Result<Machine, ParseError>)
    requires cr.Valid() && !cr.EOF
    modifies cr
    ensures cr.Valid()
    ensures Agrees(r, cr.State(), Checked(Next(old(cr.State())), m.(state := state, ln := m.ln + [old(cr.C)])))
  {
    var ln := m.ln + [cr.C];
    cr.Next();
    if cr.EOF {
      return Err(ErrUnexpectedEnd(cr.L));
    }
    return Ok(m.(state := state, ln := ln));
  }

  /** State 1: a ':' ends a tag, anything else is part of one. */
  method TagStep(cr: Lexer.CharReader, m: Machine) returns (r: Result<Machine, ParseError>)
    requires cr.Valid() && !cr.EOF && m.state == 1
    modifies cr
    ensures cr.Valid()
    ensures Agrees(r, cr.State(), Step(old(cr.State()), m))
  {
    if cr.C == ':' {
      var ln, tags := m.ln, m.tags;
      var tag := Text.TrimSpace(ln);
      if tag != "" {
        tags := tags + {tag};
        ln := [];
      }
      cr.Next();
      cr.Eat(Blanks);
      if cr.EOF {
        return Err(ErrUnexpectedEnd(cr.L));
      }
      return Ok(m.(ln := ln, tags := tags));
    }
    r := AppendNext(cr, m, 1);
  }

  /** State 2: ": " ends the key; a ':' without a blank after it, or a blank, makes a comment. */
  method KeyStep(cr: Lexer.CharReader, m: Machine) returns (r: Result<Machine, ParseError>)
    requires cr.Valid() && !cr.EOF && m.state == 2
    modifies cr
    ensures cr.Valid()
    ensures Agrees(r, cr.State(), Step(old(cr.State()), m))
  {
    if cr.C == ':' {
      if cr.NMatch(Blanks) {
        // ln becomes the key
        cr.Next();
        cr.Eat(Blanks);
        if cr.EOF {
          return Err(ErrUnexpectedEnd(cr.L));
        }
        return Ok(m.(state := 3, key := m.ln, ln := []));
      }
      // No blank after the colon
      r := AppendNext(cr, m, 4);
      return;
    }
    if cr.Match(Blanks) {
      // A key cannot hold a blank
      r := AppendNext(cr, m, 4);
      return;
    }
    r := AppendNext(cr, m, 2);
  }

  /** The machine's loop over the rest of the line. */
  method CommentLoop(cr: Lexer.CharReader, m0: Machine) returns (r: Result<Machine, ParseError>)
    requires cr.Valid() && !cr.EOF
    modifies cr
    ensures cr.Valid()
    ensures Agrees(r, cr.State(), Loop(old(cr.State()), m0))
  {
    var m := m0;
    while !cr.Match("\n")
      invariant cr.Valid() && !cr.EOF
      invariant Loop(cr.State(), m) == Loop(old(cr.State()), m0)
      decreases |cr.State().rest|
    {
      var s := CommentStep(cr, m);
      if s.Err? {
        return Err(s.error);
      }
      m := s.value;
    }
    return Ok(m);
  }

  /** The ';' branch of the posting loop: reads one attached comment line into t. */
  method ParseAttachedComment(cr: Lexer.CharReader, t: Transaction) returns (r: Result<Transaction, ParseError>)
    requires cr.Valid() && !cr.EOF
    modifies cr
    ensures cr.Valid()
    ensures Agrees(r, cr.State(), AttachedComment(old(cr.State()), t))
  {
    ghost var start := cr.State();
    cr.Next();
    cr.Eat(Blanks);
    ghost var e := cr.State();
    if cr.EOF {
      return Err(ErrUnexpectedEnd(cr.L));
    }
    var m := CommentLoop(cr, Machine(0, [], "", t.tags));
    AttachedByLoop(start, t, e, Loop(e, Machine(0, [], "", t.tags)));
    if m.Err? {
      return Err(m.error);
    }
    cr.Next();
    r := FinishComment(t, m.value, cr.L);
  }

  /** The end of the ';' branch: the tag-line check, or the pair or comment recorded. */
  method FinishComment(t: Transaction, m: Machine, line: int) returns (r: Result<Transaction, ParseError>)
    ensures r == Finish(t, m, line)
  {
    var current := t.(tags := m.tags);
    if m.state == 1 {
      var i := 0;
      while i < |m.ln|
        invariant 0 <= i <= |m.ln|
        invariant forall j :: 0 <= j < i ==> IsBlank(m.ln[j])
      {
        var c := m.ln[i];
        if c != ' ' && c != '\t' {
          // A character on a tag line that is not part of a tag
          return Err(ErrMalformedTagLine(line));
        }
        i := i + 1;
      }
      return Ok(current);
    }
    if m.state == 3 {
      return Ok(current.(kvPairs := t.kvPairs[m.key := Text.TrimSpace(m.ln)]));
    }
    if m.state == 2 || m.state == 4 {
      current := current.(comments := t.comments + [Text.TrimSpace(m.ln)]);
    }
    return Ok(current);
  }
  // The line grammar: what one comment line records, stated on its text.

  /** What an attached comment line records in the transaction. */
  datatype LineKind =
    | EmptyLine
    | TagLine(tags: set<string>, trailing: string)
    | KeyValue(key: string, value: string)
    | PlainComment(text: string)

  /**
   * The tags of the text after a tag line's leading ':': the trimmed text before each further
   * ':', when it is not empty.
   */
  function TagsOf(w: string): (r: set<string>)
    decreases |w|
  {
    var k: nat := SpanNotIn(w, ":");
    if k == |w| then {}
    else
      var tag := Text.TrimSpace(w[..k]);
      (if tag != [] then {tag} else {}) + TagsOf(w[k + 1..])
  }

  /** Every tag is non-empty and neither starts nor ends with white space. */
  lemma {:induction false} TagsTrimmed(w: string)
    ensures forall x :: x in TagsOf(w) ==> x != [] && !Text.IsSpace(x[0]) && !Text.IsSpace(x[|x| - 1])
    decreases |w|
  {
    var k := SpanNotIn(w, ":");
    if k < |w| {
      TagsOfSegment(w, k, w[..k], w[k + 1..]);
      TagsTrimmed(w[k + 1..]);
    } else {
      TagsOfNone(w);
    }
  }

  /** The text after the last ':' of w (all of w when it has none). */
  function Trailing(w: string): (r: string)
    ensures forall i :: 0 <= i < |r| ==> r[i] != ':'
    decreases |w|
  {
    var k: nat := SpanNotIn(w, ":");
    if k == |w| then w else Trailing(w[k + 1..])
  }

  /**
   * The kind of a comment line, from its text: the characters after ';' and its blanks, up to
   * the '\n'. A leading ':' makes a tag line; a first blank or ':' that is a ':' followed by a
   * blank makes a key/value pair; any other non-empty line is a plain comment.
   */
  function Classify(line: string): LineKind
  {
    if line == [] then EmptyLine
    else if line[0] == ':' then TagLine(TagsOf(line[1..]), Trailing(line[1..]))
    else
      var k: nat := SpanNotIn(line, ": \t");
      if k + 1 < |line| && line[k] == ':' && line[k + 1] in Blanks then
        KeyValue(line[..k], Text.TrimSpace(line[k + 1..]))
      else PlainComment(Text.TrimSpace(line))
  }

  /** What a line of the given kind adds to the transaction. */
  function Record(t: Transaction, kind: LineKind): Transaction
  {
    match kind
    case EmptyLine => t
    case TagLine(tags, _) => t.(tags := t.tags + tags)
    case KeyValue(key, value) => t.(kvPairs := t.kvPairs[key := value])
    case PlainComment(text) => t.(comments := t.comments + [text])
  }

  /** The kind a machine stands for once it reaches the '\n' outside state 1. */
  function KindOf(m: Machine): LineKind
  {
    if m.state == 3 then KeyValue(m.key, Text.TrimSpace(m.ln))
    else if m.state == 2 || m.state == 4 then PlainComment(Text.TrimSpace(m.ln))
    else EmptyLine
  }

  /** Outside state 1 the end of the line records exactly the machine's kind. */
  lemma FinishKind(t: Transaction, m: Machine, line: int)
    requires m.state != 1 && m.tags == t.tags
    ensures Finish(t, m, line) == Ok(Record(t, KindOf(m)))
  {
  }

  /** The characters that a state appends to ln, staying in that state. */
  predicate Plain(state: nat, c: char)
  {
    && c != '\n'
    && (|| state == 3 || state == 4
        || (state == 1 && c != ':')
        || (state == 2 && c != ':' && c !in Blanks))
  }

  lemma StepPlain(cur: Cursor, m: Machine)
    requires cur.Valid() && cur.rest != [] && Plain(m.state, cur.c)
    ensures Step(cur, m) == Checked(Next(cur), m.(ln := m.ln + [cur.c]))
  {
  }

  /** A plain character before the last one is appended to ln. */
  lemma LoopPlainAt(e: Cursor, j: nat, m: Machine)
    requires e.Valid() && j + 1 < |e.rest| && Plain(m.state, e.rest[j])
    ensures Loop(Skip(e, j), m) == Loop(Skip(e, j + 1), m.(ln := m.ln + [e.rest[j]]))
  {
    var s := e.rest;
    var cur := Skip(e, j);
    assert cur.rest == s[j..] && cur.c == s[j];
    StepPlain(cur, m);
    SkipNext(e, j);
    assert Skip(e, j + 1).rest == s[j + 1..];
    LoopStep(cur, m);
  }

  /** A plain last character runs off the end of the input. */
  lemma LoopPlainEnd(e: Cursor, j: nat, m: Machine)
    requires e.Valid() && j + 1 == |e.rest| && Plain(m.state, e.rest[j])
    ensures Loop(Skip(e, j), m) == Err(ErrUnexpectedEnd(Skip(e, |e.rest|).line))
  {
    var s := e.rest;
    var cur := Skip(e, j);
    assert cur.rest == s[j..] && cur.c == s[j];
    StepPlain(cur, m);
    SkipNext(e, j);
    LoopStep(cur, m);
  }

  /** A run of plain characters from j to q is appended to ln, or runs off the end of the input. */
  lemma {:induction false} RunFrom(e: Cursor, j: nat, q: nat, m: Machine)
    requires e.Valid() && j < |e.rest| && j <= q <= |e.rest|
    requires forall i :: j <= i < q ==> Plain(m.state, e.rest[i])
    ensures q < |e.rest| ==> Loop(Skip(e, j), m) == Loop(Skip(e, q), m.(ln := m.ln + e.rest[j..q]))
    ensures q == |e.rest| ==> Loop(Skip(e, j), m) == Err(ErrUnexpectedEnd(Skip(e, |e.rest|).line))
    decreases q - j
  {
    var s := e.rest;
    if j == q {
      assert m.ln + s[j..q] == m.ln;
      assert m.(ln := m.ln + s[j..q]) == m;
    } else if j + 1 < |s| {
      var m1 := m.(ln := m.ln + [s[j]]);
      LoopPlainAt(e, j, m);
      RunFrom(e, j + 1, q, m1);
      AppendCons(m.ln, s, j, q);
      assert m1.(ln := m1.ln + s[j + 1..q]) == m.(ln := m.ln + s[j..q]);
    } else {
      LoopPlainEnd(e, j, m);
    }
  }

  /** States 3 and 4 read the rest of the line into ln. */
  lemma TailRun(e: Cursor, j: nat, m: Machine)
    requires e.Valid() && j < |e.rest| && j <= SpanNotIn(e.rest, "\n") && (m.state == 3 || m.state == 4)
    ensures var s := e.rest; var n: nat := SpanNotIn(s, "\n");
      Loop(Skip(e, j), m) ==
        if n < |s| then Ok(Parsed(m.(ln := m.ln + s[j..n]), Skip(e, n)))
        else Err(ErrUnexpectedEnd(Skip(e, |s|).line))
  {
    var s := e.rest;
    var n: nat := SpanNotIn(s, "\n");
    RunFrom(e, j, n, m);
    if n < |s| {
      assert Skip(e, n).rest == s[n..];
    }
  }

  /**
   * The loop over a line that is not a tag line, from the reader state e after the blanks: the
   * machine either runs off the end of the input or reaches the '\n' standing for the kind of
   * the line's text.
   */
  predicate LineOutcome(r: Result<Parsed<Machine>, ParseError>, e: Cursor, tags: set<string>)
  {
    var s := e.rest;
    var n: nat := SpanNotIn(s, "\n");
    && (n == |s| ==> r == Err(ErrUnexpectedEnd(Skip(e, |s|).line)))
    && (n < |s| ==>
          && r.Ok? && r.value.cur == Skip(e, n)
          && r.value.value.state != 1 && r.value.value.tags == tags
          && KindOf(r.value.value) == Classify(s[..n]))
  }

  /** The key stops at the '\n': the whole line is a plain comment. */
  lemma KeyReachesEnd(e: Cursor, k: nat, tags: set<string>)
    requires e.Valid() && 0 < k < |e.rest| && e.rest[k] == '\n'
    requires k == SpanNotIn(e.rest[..SpanNotIn(e.rest, "\n")], ": \t")
    ensures LineOutcome(Loop(Skip(e, k), Machine(2, e.rest[..k], "", tags)), e, tags)
  {
    var s := e.rest;
    SpanNotInAt(s, "\n", k);
    assert Skip(e, k).rest == s[k..];
  }

  /** The Eat after a ':' at k skips the blanks that follow it, from p = k + 1 on. */
  lemma EatAfter(e: Cursor, k: nat, p: nat)
    requires e.Valid() && p < |e.rest| && p == k + 1
    ensures EatSpec(Next(Skip(e, k)), Blanks) == Skip(e, p + SpanIn(e.rest[p..], Blanks))
  {
    EatFrom(e, p, Blanks);
    NextAt(e, k, p);
  }

  /** Blanks are not the end of the line. */
  lemma BlanksBeforeEnd(s: seq<char>, k: nat, j: nat)
    requires k < SpanNotIn(s, "\n") && k < j <= |s| && (forall i :: k < i < j ==> s[i] in Blanks)
    ensures j <= SpanNotIn(s, "\n")
  {
    var n: nat := SpanNotIn(s, "\n");
    assert n < |s| ==> s[n] == '\n';
  }

  /** The value after the blanks trims to the trim of everything after the ':'. */
  lemma ValueTrim(s: seq<char>, k: nat, j: nat, n: nat)
    requires k < j <= n <= |s| && (forall i :: k < i < j ==> s[i] in Blanks)
    ensures Text.TrimSpace(s[..n][k + 1..]) == Text.TrimSpace(s[j..n])
  {
    var pre := s[k + 1..j];
    assert s[..n][k + 1..] == pre + s[j..n];
    forall i | 0 <= i < |pre| ensures Text.IsSpace(pre[i]) {
      assert pre[i] == s[k + 1 + i];
    }
    Text.TrimSpaceSpacePrefix(pre, s[j..n]);
  }

  /** In state 2, a ':' followed by a blank ends the key; j is past the blanks after it. */
  lemma KeyStepPair(e: Cursor, k: nat, p: nat, j: nat, tags: set<string>)
    requires e.Valid() && p < |e.rest| && p == k + 1 && e.rest[k] == ':' && e.rest[p] in Blanks
    requires j == p + SpanIn(e.rest[p..], Blanks)
    ensures Step(Skip(e, k), Machine(2, e.rest[..k], "", tags)) == Checked(Skip(e, j), Machine(3, [], e.rest[..k], tags))
  {
    EatAfter(e, k, p);
    assert Skip(e, k).rest == e.rest[k..];
  }

  lemma ClassifyPair(line: string, k: nat)
    requires 0 < k && k + 1 < |line| && line[k] == ':' && line[k + 1] in Blanks
    requires k == SpanNotIn(line, ": \t")
    ensures Classify(line) == KeyValue(line[..k], Text.TrimSpace(line[k + 1..]))
  {
    assert line[0] !in ": \t";
  }

  /** One pass of the loop on a character other than '\n'. */
  lemma LoopStep(cur: Cursor, m: Machine)
    requires cur.Valid() && cur.rest != [] && cur.c != '\n'
    ensures Loop(cur, m) == match Step(cur, m) case Err(err) => Err(err) case Ok(q) => Loop(q.cur, q.value)
  {
  }

  /** A prefix of a prefix. */
  lemma PrefixPrefix(s: seq<char>, k: nat, n: nat)
    requires k <= n <= |s|
    ensures s[..n][..k] == s[..k]
  {
  }

  /** A character of the line other than '\n' comes before its end. */
  lemma BeforeEnd(s: seq<char>, k: nat)
    requires k < |s| && s[k] != '\n' && k <= SpanNotIn(s, "\n")
    ensures k < SpanNotIn(s, "\n")
  {
  }

  /** The loop over the ':' and the blanks after it, into state 3. */
  lemma KeyLoopStep(e: Cursor, k: nat, p: nat, j: nat, tags: set<string>)
    requires e.Valid() && p < |e.rest| && p == k + 1 && e.rest[k] == ':' && e.rest[p] in Blanks
    requires j == p + SpanIn(e.rest[p..], Blanks)
    ensures j < |e.rest| ==>
      Loop(Skip(e, k), Machine(2, e.rest[..k], "", tags)) == Loop(Skip(e, j), Machine(3, [], e.rest[..k], tags))
    ensures j >= |e.rest| ==>
      Loop(Skip(e, k), Machine(2, e.rest[..k], "", tags)) == Err(ErrUnexpectedEnd(Skip(e, |e.rest|).line))
  {
    var s := e.rest;
    KeyStepPair(e, k, p, j, tags);
    SpanInFrom(s, Blanks, p);
    assert Skip(e, k).rest == s[k..];
    assert Skip(e, j).rest == s[j..];
    LoopStep(Skip(e, k), Machine(2, s[..k], "", tags));
  }

  /** State 3 from the first character of the value on: the line is a key/value pair. */
  lemma ValueOutcome(e: Cursor, k: nat, j: nat, tags: set<string>)
    requires e.Valid() && 0 < k && k + 1 < j < |e.rest| && e.rest[k] == ':' && e.rest[k + 1] in Blanks
    requires forall i :: k < i < j ==> e.rest[i] in Blanks
    requires k == SpanNotIn(e.rest[..SpanNotIn(e.rest, "\n")], ": \t")
    requires j <= SpanNotIn(e.rest, "\n")
    ensures LineOutcome(Loop(Skip(e, j), Machine(3, [], e.rest[..k], tags)), e, tags)
  {
    var s := e.rest;
    var n: nat := SpanNotIn(s, "\n");
    var m3 := Machine(3, [], s[..k], tags);
    TailRun(e, j, m3);
    if n < |s| {
      var m4 := m3.(ln := s[j..n]);
      assert m3.ln + s[j..n] == s[j..n];
      ValueTrim(s, k, j, n);
      ClassifyPair(s[..n], k);
      PrefixPrefix(s, k, n);
      assert KindOf(m4) == Classify(s[..n]);
    }
  }

  /** A ':' and a blank end the key: the rest of the line, trimmed, is the value. */
  lemma KeyThenValue(e: Cursor, k: nat, p: nat, j: nat, tags: set<string>)
    requires e.Valid() && 0 < k && p < |e.rest| && p == k + 1 && e.rest[k] == ':' && e.rest[p] in Blanks
    requires k == SpanNotIn(e.rest[..SpanNotIn(e.rest, "\n")], ": \t")
    requires j == p + SpanIn(e.rest[p..], Blanks)
    ensures LineOutcome(Loop(Skip(e, k), Machine(2, e.rest[..k], "", tags)), e, tags)
  {
    var s := e.rest;
    KeyLoopStep(e, k, p, j, tags);
    SpanInFrom(s, Blanks, p);
    BeforeEnd(s, k);
    BlanksBeforeEnd(s, k, j);
    if j < |s| {
      ValueOutcome(e, k, j, tags);
    }
  }

  /** A line whose key part ends in a blank, or in a ':' without a blank after it, is plain. */
  lemma ClassifyOther(line: string, k: nat)
    requires 0 < k < |line| && k == SpanNotIn(line, ": \t")
    requires line[k] in Blanks || k + 1 == |line| || line[k + 1] !in Blanks
    ensures Classify(line) == PlainComment(Text.TrimSpace(line))
  {
    assert line[0] !in ": \t";
  }

  /** In state 2, a blank or a ':' without a blank after it turns the line into a comment. */
  lemma KeyStepOther(e: Cursor, k: nat, p: nat, tags: set<string>)
    requires e.Valid() && k < |e.rest| && p == k + 1
    requires e.rest[k] in Blanks || (e.rest[k] == ':' && (p == |e.rest| || e.rest[p] !in Blanks))
    ensures Step(Skip(e, k), Machine(2, e.rest[..k], "", tags)) == Checked(Skip(e, p), Machine(4, e.rest[..p], "", tags))
  {
    var s := e.rest;
    assert Skip(e, k).rest == s[k..];
    PrefixSnoc([], s, k);
    assert [] + s[..k] == s[..k] && [] + s[..p] == s[..p];
    NextAt(e, k, p);
  }

  /** The loop over that blank or ':', into state 4. */
  lemma KeyLoopOther(e: Cursor, k: nat, p: nat, tags: set<string>)
    requires e.Valid() && k < |e.rest| && p == k + 1
    requires e.rest[k] in Blanks || (e.rest[k] == ':' && (p == |e.rest| || e.rest[p] !in Blanks))
    ensures p < |e.rest| ==>
      Loop(Skip(e, k), Machine(2, e.rest[..k], "", tags)) == Loop(Skip(e, p), Machine(4, e.rest[..p], "", tags))
    ensures p == |e.rest| ==>
      Loop(Skip(e, k), Machine(2, e.rest[..k], "", tags)) == Err(ErrUnexpectedEnd(Skip(e, |e.rest|).line))
  {
    var s := e.rest;
    KeyStepOther(e, k, p, tags);
    assert Skip(e, k).rest == s[k..];
    assert Skip(e, p).rest == s[p..];
    LoopStep(Skip(e, k), Machine(2, s[..k], "", tags));
  }

  /** State 4 from the character after the key's end: the line is a plain comment. */
  lemma OtherOutcome(e: Cursor, k: nat, p: nat, tags: set<string>)
    requires e.Valid() && 0 < k && p < |e.rest| && p == k + 1
    requires e.rest[k] in Blanks || (e.rest[k] == ':' && e.rest[p] !in Blanks)
    requires k == SpanNotIn(e.rest[..SpanNotIn(e.rest, "\n")], ": \t")
    requires p <= SpanNotIn(e.rest, "\n")
    ensures LineOutcome(Loop(Skip(e, p), Machine(4, e.rest[..p], "", tags)), e, tags)
  {
    var s := e.rest;
    var n: nat := SpanNotIn(s, "\n");
    var m4 := Machine(4, s[..p], "", tags);
    TailRun(e, p, m4);
    if n < |s| {
      OtherKind(s, n, k, p, tags);
    }
  }

  /** The kind state 4 records for the rest of such a line. */
  lemma OtherKind(s: string, n: nat, k: nat, p: nat, tags: set<string>)
    requires 0 < k && p == k + 1 && p <= n <= |s| && p < |s|
    requires s[k] in Blanks || (s[k] == ':' && s[p] !in Blanks)
    requires k == SpanNotIn(s[..n], ": \t")
    ensures KindOf(Machine(4, s[..p] + s[p..n], "", tags)) == Classify(s[..n])
  {
    assert s[..p] + s[p..n] == s[..n];
    ClassifyOther(s[..n], k);
  }

  /** The loop from such a blank or ':' on: the whole line is a plain comment. */
  lemma KeyOther(e: Cursor, k: nat, p: nat, tags: set<string>)
    requires e.Valid() && 0 < k < |e.rest| && p == k + 1
    requires e.rest[k] in Blanks || (e.rest[k] == ':' && (p == |e.rest| || e.rest[p] !in Blanks))
    requires k == SpanNotIn(e.rest[..SpanNotIn(e.rest, "\n")], ": \t")
    ensures LineOutcome(Loop(Skip(e, k), Machine(2, e.rest[..k], "", tags)), e, tags)
  {
    KeyLoopOther(e, k, p, tags);
    BeforeEnd(e.rest, k);
    if p < |e.rest| {
      OtherOutcome(e, k, p, tags);
    }
  }

  /** Wherever the key part of the line ends, the line has the outcome of its text. */
  lemma KeyAt(e: Cursor, k: nat, tags: set<string>)
    requires e.Valid() && 0 < k < |e.rest|
    requires k == SpanNotIn(e.rest[..SpanNotIn(e.rest, "\n")], ": \t")
    ensures LineOutcome(Loop(Skip(e, k), Machine(2, e.rest[..k], "", tags)), e, tags)
  {
    var s := e.rest;
    var n: nat := SpanNotIn(s, "\n");
    var p: nat := k + 1;
    if k == n {
      KeyReachesEnd(e, k, tags);
    } else {
      assert s[..n][k] == s[k];
      if s[k] == ':' && p < |s| && s[p] in Blanks {
        var j: nat := p + SpanIn(s[p..], Blanks);
        KeyThenValue(e, k, p, j, tags);
      } else {
        KeyOther(e, k, p, tags);
      }
    }
  }

  /** State 0 on a first character that is neither ':' nor a blank: state 2 with it read. */
  lemma KeyFirst(e: Cursor, tags: set<string>)
    requires e.Valid() && e.rest != [] && e.rest[0] != ':' && e.rest[0] != '\n'
    ensures 1 < |e.rest| ==> Loop(e, Machine(0, [], "", tags)) == Loop(Skip(e, 1), Machine(2, e.rest[..1], "", tags))
    ensures |e.rest| == 1 ==> Loop(e, Machine(0, [], "", tags)) == Err(ErrUnexpectedEnd(Skip(e, 1).line))
  {
    NextSkip(e);
    assert [] + [e.c] == e.rest[..1];
    assert Skip(e, 1).rest == e.rest[1..];
    LoopStep(e, Machine(0, [], "", tags));
  }

  /** State 2 up to the first ':' or blank of the line. */
  lemma KeyRun(e: Cursor, k: nat, tags: set<string>)
    requires e.Valid() && 1 < |e.rest| && 1 <= k <= |e.rest|
    requires forall i :: 1 <= i < k ==> Plain(2, e.rest[i])
    ensures k < |e.rest| ==>
      Loop(Skip(e, 1), Machine(2, e.rest[..1], "", tags)) == Loop(Skip(e, k), Machine(2, e.rest[..k], "", tags))
    ensures k == |e.rest| ==>
      Loop(Skip(e, 1), Machine(2, e.rest[..1], "", tags)) == Err(ErrUnexpectedEnd(Skip(e, |e.rest|).line))
  {
    var m1 := Machine(2, e.rest[..1], "", tags);
    RunFrom(e, 1, k, m1);
    assert e.rest[..1] + e.rest[1..k] == e.rest[..k];
  }

  /**
   * A comment line that does not start with ':' (nor, after the Eat, with a blank): the
   * machine reads its key part, then its value or its comment text, to the '\n'.
   */
  lemma KeyLine(e: Cursor, tags: set<string>)
    requires e.Valid() && e.rest != [] && e.rest[0] != ':' && e.rest[0] != '\n' && e.rest[0] !in Blanks
    ensures LineOutcome(Loop(e, Machine(0, [], "", tags)), e, tags)
  {
    var s := e.rest;
    var n: nat := SpanNotIn(s, "\n");
    var line := s[..n];
    var k: nat := SpanNotIn(line, ": \t");
    assert line[0] == s[0];
    KeyFirst(e, tags);
    if 1 < |s| {
      forall i | 1 <= i < k ensures Plain(2, s[i]) {
        assert line[i] == s[i];
      }
      KeyRun(e, k, tags);
      if k < |s| {
        KeyAt(e, k, tags);
      }
    }
  }

  /** A line that is not a tag line, from the first character after the blanks. */
  lemma LineLoop(e: Cursor, tags: set<string>)
    requires e.Valid() && e.rest != [] && e.rest[0] != ':' && e.rest[0] !in Blanks
    ensures LineOutcome(Loop(e, Machine(0, [], "", tags)), e, tags)
  {
    if e.rest[0] == '\n' {
      assert SpanNotIn(e.rest, "\n") == 0;
      assert Skip(e, 0) == e;
    } else {
      KeyLine(e, tags);
    }
  }

  /** The Eat after the ';' stops on a character that is not a blank. */
  lemma EatStops(cur: Cursor)
    requires cur.Valid()
    ensures var e := EatSpec(cur, Blanks); e.Valid() && (e.rest != [] ==> e.rest[0] !in Blanks)
  {
    var k := SpanIn(cur.rest, Blanks);
    assert EatSpec(cur, Blanks).rest == cur.rest[k..];
  }

  /** The end of a line that is not a tag line: the '\n' is read and the kind recorded. */
  lemma FinishLine(t: Transaction, e: Cursor, n: nat, r: Result<Parsed<Machine>, ParseError>)
    requires e.Valid() && n == SpanNotIn(e.rest, "\n") && n < |e.rest| && LineOutcome(r, e, t.tags)
    ensures r.Ok? && Next(r.value.cur) == Skip(e, n + 1)
    ensures Finish(t, r.value.value, Skip(e, n + 1).line) == Ok(Record(t, Classify(e.rest[..n])))
  {
    FinishKind(t, r.value.value, Skip(e, n + 1).line);
    NextAt(e, n, n + 1);
  }

  /**
   * The grammar of an attached comment line that is not a tag line. After the ';' and its
   * blanks the line runs to the next '\n': no '\n' before the end of the input is an error,
   * and otherwise the line's text, classified, is recorded and the reader is past the '\n'.
   */
  lemma CommentLineGrammar(cur: Cursor, t: Transaction)
    requires cur.Valid() && cur.rest != []
    ensures var e := EatSpec(Next(cur), Blanks); var s := e.rest; var n := SpanNotIn(s, "\n");
      && (s == [] ==> AttachedComment(cur, t) == Err(ErrUnexpectedEnd(e.line)))
      && (s != [] && s[0] != ':' && n == |s| ==>
            AttachedComment(cur, t) == Err(ErrUnexpectedEnd(Skip(e, |s|).line)))
      && (s != [] && s[0] != ':' && n < |s| ==>
            AttachedComment(cur, t) == Ok(Parsed(Record(t, Classify(s[..n])), Skip(e, n + 1))))
  {
    var e := EatSpec(Next(cur), Blanks);
    EatStops(Next(cur));
    if e.rest != [] && e.rest[0] != ':' {
      var n: nat := SpanNotIn(e.rest, "\n");
      var m0 := Machine(0, [], "", t.tags);
      LineLoop(e, t.tags);
      if n < |e.rest| {
        FinishLine(t, e, n, Loop(e, m0));
      }
    }
  }

  // Tag lines.

  /** No white space other than blanks: '\v', '\f' and the Unicode spaces are excluded. */
  predicate NoOddSpace(w: string)
  {
    forall i :: 0 <= i < |w| && Text.IsSpace(w[i]) ==> IsBlank(w[i])
  }

  /** Blanks in front of the text move its first ':' by their number. */
  lemma ColonAfterBlanks(x: string, w: string)
    requires forall i :: 0 <= i < |x| ==> x[i] in Blanks
    ensures SpanNotIn(x + w, ":") == |x| + SpanNotIn(w, ":")
  {
    var xw := x + w;
    assert forall i :: |x| <= i < |xw| ==> xw[i] == w[i - |x|];
    SpanNotInAt(xw, ":", |x| + SpanNotIn(w, ":"));
  }

  /** One segment of TagsOf: the text seg before the first ':' and the text rest after it. */
  lemma TagsOfSegment(w: string, k: nat, seg: string, rest: string)
    requires k == SpanNotIn(w, ":") && k < |w| && seg == w[..k] && rest == w[k + 1..]
    ensures var tag := Text.TrimSpace(seg);
      TagsOf(w) == (if tag != [] then {tag} else {}) + TagsOf(rest)
  {
  }

  /** Text without a ':' has no tags and is its own last segment. */
  lemma TagsOfNone(w: string)
    requires SpanNotIn(w, ":") == |w|
    ensures TagsOf(w) == {} && Trailing(w) == w
  {
  }

  /** Blanks in front of the text change none of its tags. */
  lemma TagsOfBlankPrefix(x: string, w: string)
    requires forall i :: 0 <= i < |x| ==> x[i] in Blanks
    ensures TagsOf(x + w) == TagsOf(w)
  {
    ColonAfterBlanks(x, w);
    if SpanNotIn(w, ":") < |w| {
      TagsOfBlankSegment(x, w, SpanNotIn(w, ":"));
    } else {
      TagsOfNone(x + w);
      TagsOfNone(w);
    }
  }

  lemma BlanksAreSpace(x: string)
    requires forall i :: 0 <= i < |x| ==> x[i] in Blanks
    ensures Text.AllSpace(x)
  {
  }

  lemma SliceAfterPrefix(x: seq<char>, w: seq<char>, k: nat)
    requires k < |w|
    ensures (x + w)[..|x| + k] == x + w[..k] && (x + w)[|x| + k + 1..] == w[k + 1..]
  {
  }

  lemma TagsOfBlankSegment(x: string, w: string, k: nat)
    requires forall i :: 0 <= i < |x| ==> x[i] in Blanks
    requires k == SpanNotIn(w, ":") < |w| && SpanNotIn(x + w, ":") == |x| + k
    ensures TagsOf(x + w) == TagsOf(w)
  {
    var seg, rest := w[..k], w[k + 1..];
    var tag := Text.TrimSpace(seg);
    var first: set<string> := if tag != [] then {tag} else {};
    BlanksAreSpace(x);
    assert TagsOf(x + w) == first + TagsOf(rest) by {
      SliceAfterPrefix(x, w, k);
      TagsOfSegment(x + w, |x| + k, x + seg, rest);
      Text.TrimSpaceSpacePrefix(x, seg);
    }
    assert TagsOf(w) == first + TagsOf(rest) by {
      TagsOfSegment(w, k, seg, rest);
    }
  }

  lemma HasNonBlankAfterBlanks(x: string, w: string)
    requires forall i :: 0 <= i < |x| ==> x[i] in Blanks
    ensures HasNonBlank(x + w) <==> HasNonBlank(w)
  {
    var xw := x + w;
    if HasNonBlank(w) {
      var i :| 0 <= i < |w| && !IsBlank(w[i]);
      assert xw[|x| + i] == w[i];
    }
    forall i | |x| <= i < |xw| ensures xw[i] == w[i - |x|] {
    }
  }

  /** Blanks in front of the text do not change whether its last segment holds a non-blank. */
  lemma TrailingBlankPrefix(x: string, w: string)
    requires forall i :: 0 <= i < |x| ==> x[i] in Blanks
    ensures HasNonBlank(Trailing(x + w)) <==> HasNonBlank(Trailing(w))
  {
    var k := SpanNotIn(w, ":");
    var xw := x + w;
    ColonAfterBlanks(x, w);
    if k < |w| {
      assert xw[|x| + k + 1..] == w[k + 1..];
    } else {
      HasNonBlankAfterBlanks(x, w);
    }
  }

  /** A segment of a tag line: the text up to a ':', none of whose characters is a ':'. */
  lemma TagsSplit(s: seq<char>, j: nat, q: nat, n: nat, j1: nat)
    requires j <= q < j1 <= n <= |s| && s[q] == ':'
    requires forall i :: j <= i < q ==> s[i] != ':'
    requires forall i :: q < i < j1 ==> s[i] in Blanks
    ensures var tag := Text.TrimSpace(s[j..q]);
      TagsOf(s[j..n]) == (if tag != [] then {tag} else {}) + TagsOf(s[j1..n])
    ensures HasNonBlank(Trailing(s[j..n])) <==> HasNonBlank(Trailing(s[j1..n]))
  {
    var w := s[j..n];
    var pre := s[q + 1..j1];
    assert w[..q - j] == s[j..q] && w[q - j + 1..] == pre + s[j1..n] by {
      assert forall i :: 0 <= i < q - j ==> w[i] == s[j + i];
      SpanNotInAt(w, ":", q - j);
    }
    assert forall i :: 0 <= i < |pre| ==> pre[i] == s[q + 1 + i];
    SegmentSplit(w, q - j, s[j..q], pre, s[j1..n]);
  }

  /** TagsSplit on the text itself: a segment, then blanks, then the rest. */
  lemma SegmentSplit(w: string, k: nat, seg: string, pre: string, rest: string)
    requires k < |w| && (forall i :: 0 <= i < k ==> w[i] != ':') && w[k] == ':'
    requires seg == w[..k] && w[k + 1..] == pre + rest
    requires forall i :: 0 <= i < |pre| ==> pre[i] in Blanks
    ensures var tag := Text.TrimSpace(seg);
      TagsOf(w) == (if tag != [] then {tag} else {}) + TagsOf(rest)
    ensures HasNonBlank(Trailing(w)) <==> HasNonBlank(Trailing(rest))
  {
    SpanNotInAt(w, ":", k);
    TagsOfSegment(w, k, seg, pre + rest);
    TagsOfBlankPrefix(pre, rest);
    assert Trailing(w) == Trailing(pre + rest);
    TrailingBlankPrefix(pre, rest);
  }

  /** The last segment of a tag line: no ':' up to the '\n'. */
  lemma TagsEnd(w: string)
    requires forall i :: 0 <= i < |w| ==> w[i] != ':'
    ensures TagsOf(w) == {} && Trailing(w) == w
  {
    SpanNotInAt(w, ":", |w|);
  }

  /** State 1 on a ':': the text read so far, trimmed, becomes a tag unless it is empty. */
  function AfterTag(m: Machine): (r: Machine)
    ensures r.state == m.state && r.key == m.key
    ensures Text.TrimSpace(m.ln) != [] ==> r.tags == m.tags + {Text.TrimSpace(m.ln)} && r.ln == []
    ensures Text.TrimSpace(m.ln) == [] ==> r == m
  {
    var tag := Text.TrimSpace(m.ln);
    if tag != "" then m.(tags := m.tags + {tag}, ln := []) else m
  }

  /**
   * The loop in state 1 from position j, as a function of the text s[j..n] before the '\n':
   * it runs off the end of the input, or reaches the '\n' with the tags of that text added and
   * a non-blank left in ln exactly when the last segment holds one (the converse needs text
   * without odd white space and an ln of blanks).
   */
  predicate TagOutcome(r: Result<Parsed<Machine>, ParseError>, e: Cursor, j: nat, m: Machine)
  {
    var s := e.rest;
    var n := SpanNotIn(s, "\n");
    && (n == |s| ==> r == Err(ErrUnexpectedEnd(Skip(e, |s|).line)))
    && (n < |s| && j <= n ==>
          var w := s[j..n];
          && r.Ok? && r.value.cur == Skip(e, n) && r.value.value.state == 1
          && r.value.value.tags == m.tags + TagsOf(w)
          && (HasNonBlank(Trailing(w)) ==> HasNonBlank(r.value.value.ln))
          && (NoOddSpace(w) && !HasNonBlank(m.ln) && !HasNonBlank(Trailing(w)) ==> !HasNonBlank(r.value.value.ln)))
  }

  /** Characters other than '\n' from the start of the line up to q keep q on the line. */
  lemma NoNewlineUpTo(s: seq<char>, j: nat, q: nat)
    requires j <= SpanNotIn(s, "\n") && q <= |s| && (forall i :: j <= i < q ==> s[i] != '\n')
    ensures q <= SpanNotIn(s, "\n")
  {
    var n := SpanNotIn(s, "\n");
    assert n < |s| ==> s[n] == '\n';
  }

  lemma HasNonBlankConcat(a: seq<char>, b: seq<char>)
    ensures HasNonBlank(a + b) <==> HasNonBlank(a) || HasNonBlank(b)
  {
    var ab := a + b;
    if HasNonBlank(a) {
      var i :| 0 <= i < |a| && !IsBlank(a[i]);
      assert ab[i] == a[i];
    }
    if HasNonBlank(b) {
      var i :| 0 <= i < |b| && !IsBlank(b[i]);
      assert ab[|a| + i] == b[i];
    }
    if HasNonBlank(ab) {
      var i :| 0 <= i < |ab| && !IsBlank(ab[i]);
      if i < |a| {
        assert ab[i] == a[i];
      } else {
        assert ab[i] == b[i - |a|];
      }
    }
  }

  /** TagsEnd on a slice. */
  lemma TagsEndAt(s: seq<char>, j: nat, q: nat)
    requires j <= q <= |s| && forall i :: j <= i < q ==> s[i] != ':'
    ensures TagsOf(s[j..q]) == {} && Trailing(s[j..q]) == s[j..q]
  {
    var w := s[j..q];
    assert forall i :: 0 <= i < |w| ==> w[i] == s[j + i];
    TagsEnd(w);
  }

  /** The last segment runs off the end of the input. */
  lemma TagEofCase(e: Cursor, j: nat, m: Machine)
    requires e.Valid() && j < |e.rest| && j <= SpanNotIn(e.rest, "\n") && m.state == 1
    requires forall i :: j <= i < |e.rest| ==> e.rest[i] != ':' && e.rest[i] != '\n'
    ensures TagOutcome(Loop(Skip(e, j), m), e, j, m)
  {
    RunFrom(e, j, |e.rest|, m);
    NoNewlineUpTo(e.rest, j, |e.rest|);
  }

  /** The last segment ends at the '\n' at q. */
  lemma TagEndCase(e: Cursor, j: nat, q: nat, m: Machine)
    requires e.Valid() && j <= q < |e.rest| && j <= SpanNotIn(e.rest, "\n") && m.state == 1
    requires forall i :: j <= i < q ==> e.rest[i] != ':' && e.rest[i] != '\n'
    requires e.rest[q] == '\n'
    ensures TagOutcome(Loop(Skip(e, j), m), e, j, m)
  {
    var s := e.rest;
    RunFrom(e, j, q, m);
    NoNewlineUpTo(s, j, q);
    SpanNotInStop(s, "\n", q);
    assert Skip(e, q).rest == s[q..];
    TagsEndAt(s, j, q);
    HasNonBlankConcat(m.ln, s[j..q]);
  }

  /** State 1 on the ':' at q: the tag is taken and the blanks after the ':' are eaten. */
  lemma TagColonStep(e: Cursor, q: nat, p: nat, j1: nat, m: Machine)
    requires e.Valid() && q < |e.rest| && p == q + 1 && e.rest[q] == ':' && m.state == 1
    requires j1 == p + SpanIn(e.rest[p..], Blanks)
    ensures j1 < |e.rest| ==> Loop(Skip(e, q), m) == Loop(Skip(e, j1), AfterTag(m))
    ensures j1 >= |e.rest| ==> Loop(Skip(e, q), m) == Err(ErrUnexpectedEnd(Skip(e, |e.rest|).line))
  {
    var s := e.rest;
    assert Skip(e, q).rest == s[q..];
    if p < |s| {
      EatAfter(e, q, p);
    } else {
      assert s[p..] == [];
      NextAt(e, q, p);
    }
    SpanInFrom(s, Blanks, p);
    assert Skip(e, j1).rest == s[j1..];
    LoopStep(Skip(e, q), m);
  }

  lemma NoOddSpaceSuffix(s: seq<char>, j: nat, j1: nat, n: nat)
    requires j <= j1 <= n <= |s| && NoOddSpace(s[j..n])
    ensures NoOddSpace(s[j1..n])
  {
    forall i | 0 <= i < n - j1 && Text.IsSpace(s[j1..n][i]) ensures IsBlank(s[j1..n][i]) {
      assert s[j1..n][i] == s[j..n][j1 - j + i];
    }
  }

  /** Without odd white space, a segment of spaces is a segment of blanks. */
  lemma BlankSegment(s: seq<char>, j: nat, q: nat, n: nat, ln: seq<char>)
    requires j <= q <= n <= |s| && NoOddSpace(s[j..n])
    requires !HasNonBlank(ln) && Text.AllSpace(ln + s[j..q])
    ensures !HasNonBlank(ln + s[j..q])
  {
    var x := ln + s[j..q];
    forall i | 0 <= i < |x| ensures IsBlank(x[i]) {
      if i >= |ln| {
        assert x[i] == s[j..n][i - |ln|];
      }
    }
  }

  /** TagOutcome carried back over a segment, stated on what the segment contributes. */
  lemma TagOutcomeBack(r: Result<Parsed<Machine>, ParseError>, e: Cursor, j: nat, j1: nat, m: Machine, m2: Machine, first: set<string>)
    requires j <= j1 <= SpanNotIn(e.rest, "\n") && TagOutcome(r, e, j1, m2)
    requires m2.tags == m.tags + first
    requires var s := e.rest; var n := SpanNotIn(s, "\n"); n < |s| ==>
      && TagsOf(s[j..n]) == first + TagsOf(s[j1..n])
      && (HasNonBlank(Trailing(s[j..n])) <==> HasNonBlank(Trailing(s[j1..n])))
      && (NoOddSpace(s[j..n]) && !HasNonBlank(m.ln) ==> NoOddSpace(s[j1..n]) && !HasNonBlank(m2.ln))
    ensures TagOutcome(r, e, j, m)
  {
    var s := e.rest;
    var n := SpanNotIn(s, "\n");
    if n < |s| {
      assert m.tags + first + TagsOf(s[j1..n]) == m.tags + (first + TagsOf(s[j1..n]));
    }
  }

  /** Closing a segment: its trimmed text, when non-empty, joins the tags and ln starts afresh. */
  lemma TagMachineFacts(m: Machine, seg: seq<char>, first: set<string>)
    requires Text.AllSpace(m.ln)
    requires first == if Text.TrimSpace(seg) != [] then {Text.TrimSpace(seg)} else {}
    ensures var m2 := AfterTag(m.(ln := m.ln + seg));
      && m2.tags == m.tags + first && m2.state == m.state && Text.AllSpace(m2.ln)
      && (Text.TrimSpace(seg) != [] ==> m2.ln == [])
      && (Text.TrimSpace(seg) == [] ==> m2.ln == m.ln + seg)
  {
    Text.TrimSpaceSpacePrefix(m.ln, seg);
  }

  /** What the segment from j to the ':' at q contributes, and the machine after it. */
  lemma TagSegmentFacts(s: seq<char>, j: nat, q: nat, j1: nat, m: Machine)
    requires j <= q < j1 <= SpanNotIn(s, "\n") && s[q] == ':'
    requires forall i :: j <= i < q ==> s[i] != ':'
    requires forall i :: q < i < j1 ==> s[i] in Blanks
    requires Text.AllSpace(m.ln)
    ensures var m2 := AfterTag(m.(ln := m.ln + s[j..q]));
      var tag := Text.TrimSpace(s[j..q]); var first: set<string> := if tag != [] then {tag} else {};
      var n := SpanNotIn(s, "\n");
      && m2.tags == m.tags + first && m2.state == m.state && Text.AllSpace(m2.ln)
      && (n < |s| ==>
            && TagsOf(s[j..n]) == first + TagsOf(s[j1..n])
            && (HasNonBlank(Trailing(s[j..n])) <==> HasNonBlank(Trailing(s[j1..n])))
            && (NoOddSpace(s[j..n]) && !HasNonBlank(m.ln) ==> NoOddSpace(s[j1..n]) && !HasNonBlank(m2.ln)))
  {
    var n := SpanNotIn(s, "\n");
    var tag := Text.TrimSpace(s[j..q]);
    TagMachineFacts(m, s[j..q], if tag != [] then {tag} else {});
    if n < |s| {
      TagsSplit(s, j, q, n, j1);
      if NoOddSpace(s[j..n]) && !HasNonBlank(m.ln) {
        NoOddSpaceSuffix(s, j, j1, n);
        if tag == [] {
          BlankSegment(s, j, q, n, m.ln);
        }
      }
    }
  }

  /** A segment closed by ':' at q with only blanks after it to the end of the input. */
  lemma TagColonLast(e: Cursor, j: nat, q: nat, p: nat, j1: nat, m: Machine)
    requires e.Valid() && j <= q < |e.rest| && j <= SpanNotIn(e.rest, "\n")
    requires q == j + SpanNotIn(e.rest[j..], ":\n") && e.rest[q] == ':'
    requires p == q + 1 && j1 == p + SpanIn(e.rest[p..], Blanks) && j1 >= |e.rest|
    requires m.state == 1 && Text.AllSpace(m.ln)
    ensures TagOutcome(Loop(Skip(e, j), m), e, j, m)
  {
    var s := e.rest;
    SpanNotInFrom(s, ":\n", j);
    RunFrom(e, j, q, m);
    TagColonStep(e, q, p, j1, m.(ln := m.ln + s[j..q]));
    SpanInFrom(s, Blanks, p);
    NoNewlineUpTo(s, j, q);
    BlanksBeforeEnd(s, q, j1);
  }

  /** The run from j over the segment and its ':' lands on j1 with the segment's tag taken. */
  lemma TagColonRun(e: Cursor, j: nat, q: nat, p: nat, j1: nat, m: Machine)
    requires e.Valid() && j <= q < |e.rest| && j <= SpanNotIn(e.rest, "\n")
    requires q == j + SpanNotIn(e.rest[j..], ":\n") && e.rest[q] == ':'
    requires p == q + 1 && j1 == p + SpanIn(e.rest[p..], Blanks) && j1 < |e.rest|
    requires m.state == 1
    ensures Loop(Skip(e, j), m) == Loop(Skip(e, j1), AfterTag(m.(ln := m.ln + e.rest[j..q])))
    ensures j1 <= SpanNotIn(e.rest, "\n")
    ensures forall i :: j <= i < q ==> e.rest[i] != ':'
    ensures forall i :: q < i < j1 ==> e.rest[i] in Blanks
  {
    var s := e.rest;
    SpanNotInFrom(s, ":\n", j);
    RunFrom(e, j, q, m);
    TagColonStep(e, q, p, j1, m.(ln := m.ln + s[j..q]));
    SpanInFrom(s, Blanks, p);
    NoNewlineUpTo(s, j, q);
    BlanksBeforeEnd(s, q, j1);
  }

  /**
   * A segment closed by ':' at q with more of the line after the blanks that follow: the loop
   * goes on at j1 with the segment's tag recorded, so the outcome from j follows from the
   * outcome from j1.
   */
  lemma TagColonNext(e: Cursor, j: nat, q: nat, p: nat, j1: nat, m: Machine, m2: Machine)
    requires e.Valid() && j <= q < |e.rest| && j <= SpanNotIn(e.rest, "\n")
    requires q == j + SpanNotIn(e.rest[j..], ":\n") && e.rest[q] == ':'
    requires p == q + 1 && j1 == p + SpanIn(e.rest[p..], Blanks) && j1 < |e.rest|
    requires m.state == 1 && Text.AllSpace(m.ln)
    requires m2 == AfterTag(m.(ln := m.ln + e.rest[j..q]))
    ensures j1 <= SpanNotIn(e.rest, "\n") && m2.state == 1 && Text.AllSpace(m2.ln)
    ensures TagOutcome(Loop(Skip(e, j1), m2), e, j1, m2) ==> TagOutcome(Loop(Skip(e, j), m), e, j, m)
  {
    var s := e.rest;
    TagColonRun(e, j, q, p, j1, m);
    var tag := Text.TrimSpace(s[j..q]);
    var first: set<string> := if tag != [] then {tag} else {};
    TagSegmentFacts(s, j, q, j1, m);
    if TagOutcome(Loop(Skip(e, j1), m2), e, j1, m2) {
      TagOutcomeBack(Loop(Skip(e, j1), m2), e, j, j1, m, m2, first);
    }
  }

  /** The loop in state 1 from the start of a segment, by induction over the segments. */
  lemma {:induction false} TagScanFrom(e: Cursor, j: nat, m: Machine)
    requires e.Valid() && j < |e.rest| && j <= SpanNotIn(e.rest, "\n")
    requires m.state == 1 && Text.AllSpace(m.ln)
    ensures TagOutcome(Loop(Skip(e, j), m), e, j, m)
    decreases |e.rest| - j
  {
    var s := e.rest;
    var q: nat := j + SpanNotIn(s[j..], ":\n");
    SpanNotInFrom(s, ":\n", j);
    if q == |s| {
      TagEofCase(e, j, m);
    } else if s[q] == '\n' {
      TagEndCase(e, j, q, m);
    } else {
      var m1 := m.(ln := m.ln + s[j..q]);
      var p: nat := q + 1;
      var j1: nat := p + SpanIn(s[p..], Blanks);
      if j1 < |s| {
        var m2 := AfterTag(m1);
        TagColonNext(e, j, q, p, j1, m, m2);
        TagScanFrom(e, j1, m2);
      } else {
        TagColonLast(e, j, q, p, j1, m);
      }
    }
  }
  /** A line opening with ':' is a tag line: the loop enters state 1 and scans from position 1. */
  lemma TagLineLoop(e: Cursor, tags: set<string>)
    requires e.Valid() && e.rest != [] && e.rest[0] == ':'
    ensures TagOutcome(Loop(e, Machine(0, [], "", tags)), e, 1, Machine(1, [], "", tags))
  {
    var s := e.rest;
    NextSkip(e);
    assert Skip(e, 1).rest == s[1..];
    LoopStep(e, Machine(0, [], "", tags));
    if 1 < |s| {
      assert s[..1] == [':'];
      TagScanFrom(e, 1, Machine(1, [], "", tags));
    } else {
      assert SpanNotIn(s, "\n") == 1;
    }
  }

  /**
   * Closing a tag line: a non-blank after the last ':' is a malformed tag line; a successful
   * close adds exactly the line's tags, and it succeeds whenever the line holds no odd white
   * space and nothing after its last ':'.
   */
  lemma TagLineFinish(t: Transaction, e: Cursor, n: nat, r: Result<Parsed<Machine>, ParseError>)
    requires e.Valid() && e.rest != [] && e.rest[0] == ':'
    requires n == SpanNotIn(e.rest, "\n") && n < |e.rest|
    requires TagOutcome(r, e, 1, Machine(1, [], "", t.tags))
    ensures var w := e.rest[1..n]; var line := Skip(e, n + 1).line;
      && r.Ok? && Next(r.value.cur) == Skip(e, n + 1)
      && (HasNonBlank(Trailing(w)) ==> Finish(t, r.value.value, line) == Err(ErrMalformedTagLine(line)))
      && (Finish(t, r.value.value, line).Ok? ==> Finish(t, r.value.value, line) == Ok(Record(t, Classify(e.rest[..n]))))
      && (NoOddSpace(w) && !HasNonBlank(Trailing(w)) ==> Finish(t, r.value.value, line).Ok?)
  {
    var s := e.rest;
    assert s[..n][0] == ':';
    assert s[..n][1..] == s[1..n];
    assert !HasNonBlank([]);
    NextAt(e, n, n + 1);
  }

  /** The loop over a tag line, seen from its close: what Finish makes of the machine it stops with. */
  lemma TagLineClose(t: Transaction, e: Cursor, n: nat)
    requires e.Valid() && e.rest != [] && e.rest[0] == ':'
    requires n == SpanNotIn(e.rest, "\n")
    ensures var r := Loop(e, Machine(0, [], "", t.tags));
      && (n == |e.rest| ==> r == Err(ErrUnexpectedEnd(Skip(e, |e.rest|).line)))
      && (n < |e.rest| ==>
            var w := e.rest[1..n]; var line := Skip(e, n + 1).line;
            && r.Ok? && Next(r.value.cur) == Skip(e, n + 1)
            && (HasNonBlank(Trailing(w)) ==> Finish(t, r.value.value, line) == Err(ErrMalformedTagLine(line)))
            && (Finish(t, r.value.value, line).Ok? ==> Finish(t, r.value.value, line) == Ok(Record(t, Classify(e.rest[..n]))))
            && (NoOddSpace(w) && !HasNonBlank(Trailing(w)) ==> Finish(t, r.value.value, line).Ok?))
  {
    TagLineLoop(e, t.tags);
    if n < |e.rest| {
      TagLineFinish(t, e, n, Loop(e, Machine(0, [], "", t.tags)));
    }
  }

  /** AttachedComment in terms of the machine state r the loop stops with. */
  lemma AttachedByLoop(cur: Cursor, t: Transaction, e: Cursor, r: Result<Parsed<Machine>, ParseError>)
    requires cur.Valid() && cur.rest != [] && e == EatSpec(Next(cur), Blanks) && e.rest != []
    requires r == Loop(e, Machine(0, [], "", t.tags))
    ensures r.Err? ==> AttachedComment(cur, t) == Err(r.error)
    ensures r.Ok? ==> var after := Next(r.value.cur); var f := Finish(t, r.value.value, after.line);
      && (f.Err? ==> AttachedComment(cur, t) == Err(f.error))
      && (f.Ok? ==> AttachedComment(cur, t) == Ok(Parsed(f.value, after)))
  {
  }

  /**
   * The grammar of a tag line `:a:b:` attached to a transaction: running off the input is an
   * unexpected end, text after the last ':' is a malformed tag line, and otherwise its tags
   * join the transaction's and the reader moves past the '\n'.
   */
  lemma TagLineGrammar(cur: Cursor, t: Transaction, e: Cursor, n: nat)
    requires cur.Valid() && cur.rest != [] && e == EatSpec(Next(cur), Blanks)
    requires e.rest != [] && e.rest[0] == ':' && n == SpanNotIn(e.rest, "\n")
    ensures n == |e.rest| ==> AttachedComment(cur, t) == Err(ErrUnexpectedEnd(Skip(e, |e.rest|).line))
    ensures n < |e.rest| && HasNonBlank(Trailing(e.rest[1..n])) ==>
      AttachedComment(cur, t) == Err(ErrMalformedTagLine(Skip(e, n + 1).line))
    ensures n < |e.rest| && AttachedComment(cur, t).Ok? ==>
      AttachedComment(cur, t) == Ok(Parsed(Record(t, Classify(e.rest[..n])), Skip(e, n + 1)))
    ensures n < |e.rest| && NoOddSpace(e.rest[1..n]) && !HasNonBlank(Trailing(e.rest[1..n])) ==>
      AttachedComment(cur, t).Ok?
  {
    TagLineClose(t, e, n);
    AttachedByLoop(cur, t, e, Loop(e, Machine(0, [], "", t.tags)));
  }

  // ---------------------------------------------------------------------------------------
  // A blank segment between two ':' of a tag line
  //
  // On a ':' in state 1 the text read since the previous ':' is cleared only when it trims to
  // a tag. A segment of white space that Eat(" \t") does not remove, such as a vertical tab,
  // trims to nothing, so it stays in ln to the '\n' and the line is refused as malformed.

  /** The text `:a:\v:` and its '\n', character by character. */
  predicate VerticalTabText(s: seq<char>)
  {
    && |s| == 6 && s[0] == ':' && s[1] == 'a' && s[2] == ':'
    && s[3] == '\U{000B}' && s[4] == ':' && s[5] == '\n'
  }

  /** The ':' that opens a tag line puts the loop in state 1. */
  lemma TagLineOpen(e: Cursor, tags: set<string>)
    requires e.Valid() && |e.rest| >= 2 && e.rest[0] == ':'
    ensures Loop(e, Machine(0, [], "", tags)) == Loop(Skip(e, 1), Machine(1, [], "", tags))
  {
    NextSkip(e);
    LoopStep(e, Machine(0, [], "", tags));
  }

  /** State 1 on a character of a segment. */
  lemma TagLineChar(e: Cursor, j: nat, m: Machine)
    requires e.Valid() && j + 1 < |e.rest| && m.state == 1 && e.rest[j] != ':' && e.rest[j] != '\n'
    ensures Loop(Skip(e, j), m) == Loop(Skip(e, j + 1), m.(ln := m.ln + [e.rest[j]]))
    ensures m.ln == [] ==> Loop(Skip(e, j), m) == Loop(Skip(e, j + 1), m.(ln := [e.rest[j]]))
  {
    LoopPlainAt(e, j, m);
    assert m.ln == [] ==> m.ln + [e.rest[j]] == [e.rest[j]];
  }

  /** State 1 on a ':' that no blank follows. */
  lemma TagLineColon(e: Cursor, j: nat, m: Machine)
    requires e.Valid() && j + 1 < |e.rest| && m.state == 1 && e.rest[j] == ':' && e.rest[j + 1] !in Blanks
    ensures Loop(Skip(e, j), m) == Loop(Skip(e, j + 1), AfterTag(m))
  {
    var s := e.rest;
    assert SpanIn(s[j + 1..], Blanks) == 0 by {
      assert s[j + 1..][0] == s[j + 1];
    }
    TagColonStep(e, j, j + 1, j + 1, m);
  }

  /** State 1 on a ':' after the one character x, no space, that becomes a tag. */
  lemma TagLineColonTag(e: Cursor, j: nat, m: Machine)
    requires e.Valid() && j + 1 < |e.rest| && m.state == 1 && e.rest[j] == ':' && e.rest[j + 1] !in Blanks
    requires |m.ln| == 1 && !Text.IsSpace(m.ln[0])
    ensures Loop(Skip(e, j), m) == Loop(Skip(e, j + 1), m.(tags := m.tags + {m.ln}, ln := []))
  {
    TagLineColon(e, j, m);
    Text.TrimSpaceNoSpace(m.ln);
  }

  /** State 1 with ln empty on a segment of one character that is not white space, and its ':'. */
  lemma TagLineLetterTag(e: Cursor, j: nat, m: Machine)
    requires e.Valid() && j + 2 < |e.rest| && m.state == 1 && m.ln == []
    requires e.rest[j] != ':' && e.rest[j] != '\n' && !Text.IsSpace(e.rest[j])
    requires e.rest[j + 1] == ':' && e.rest[j + 2] !in Blanks
    ensures Loop(Skip(e, j), m) == Loop(Skip(e, j + 2), m.(tags := m.tags + {[e.rest[j]]}))
  {
    TagLineChar(e, j, m);
    TagLineColonTag(e, j + 1, m.(ln := [e.rest[j]]));
  }

  /** State 1 on a ':' after one white-space character: no tag is taken and ln is kept. */
  lemma TagLineColonSpace(e: Cursor, j: nat, m: Machine)
    requires e.Valid() && j + 1 < |e.rest| && m.state == 1 && e.rest[j] == ':' && e.rest[j + 1] !in Blanks
    requires |m.ln| == 1 && Text.IsSpace(m.ln[0])
    ensures Loop(Skip(e, j), m) == Loop(Skip(e, j + 1), m)
  {
    TagLineColon(e, j, m);
    assert Text.AllSpace(m.ln);
  }

  /** State 1 with ln empty on a segment of one white-space character, and its ':'. */
  lemma TagLineSpaceSegment(e: Cursor, j: nat, m: Machine)
    requires e.Valid() && j + 2 < |e.rest| && m.state == 1 && m.ln == []
    requires e.rest[j] != ':' && e.rest[j] != '\n' && Text.IsSpace(e.rest[j])
    requires e.rest[j + 1] == ':' && e.rest[j + 2] !in Blanks
    ensures Loop(Skip(e, j), m) == Loop(Skip(e, j + 2), m.(ln := [e.rest[j]]))
  {
    TagLineChar(e, j, m);
    TagLineColonSpace(e, j + 1, m.(ln := [e.rest[j]]));
  }

  /** The loop stops on a '\n'. */
  lemma LoopAtNewline(e: Cursor, j: nat, m: Machine)
    requires e.Valid() && j < |e.rest| && e.rest[j] == '\n'
    ensures Loop(Skip(e, j), m) == Ok(Parsed(m, Skip(e, j)))
  {
    assert Skip(e, j).c == e.rest[j];
  }

  /** The text `:x:y:` and its '\n', x not white space and y white space other than a blank. */
  predicate OddSpaceText(s: seq<char>)
  {
    && |s| == 6 && s[0] == ':' && s[2] == ':' && s[4] == ':' && s[5] == '\n'
    && s[1] != ':' && s[1] != '\n' && !Text.IsSpace(s[1])
    && s[3] != ':' && s[3] != '\n' && Text.IsSpace(s[3]) && s[3] !in Blanks
  }

  /** The first segment of `:x:y:` becomes the tag x. */
  lemma OddSpaceFirst(e: Cursor, tags: set<string>)
    requires e.Valid() && OddSpaceText(e.rest)
    ensures Loop(e, Machine(0, [], "", tags)) == Loop(Skip(e, 3), Machine(1, [], "", tags + {[e.rest[1]]}))
  {
    TagLineOpen(e, tags);
    TagLineLetterTag(e, 1, Machine(1, [], "", tags));
  }

  /** The second segment of `:x:y:` stays in ln up to the '\n'. */
  lemma OddSpaceSecond(e: Cursor, tags: set<string>)
    requires e.Valid() && OddSpaceText(e.rest)
    ensures Loop(Skip(e, 3), Machine(1, [], "", tags)) == Ok(Parsed(Machine(1, [e.rest[3]], "", tags), Skip(e, 5)))
  {
    TagLineSpaceSegment(e, 3, Machine(1, [], "", tags));
    LoopAtNewline(e, 5, Machine(1, [e.rest[3]], "", tags));
  }

  /**
   * The loop over `:x:y:`: x becomes a tag, and y, white space that Eat(" \t") leaves, stays in
   * ln up to the '\n'.
   */
  lemma OddSpaceSegmentLoop(e: Cursor, tags: set<string>)
    requires e.Valid() && OddSpaceText(e.rest)
    ensures Loop(e, Machine(0, [], "", tags)) ==
      Ok(Parsed(Machine(1, [e.rest[3]], "", tags + {[e.rest[1]]}), Skip(e, 5)))
  {
    OddSpaceFirst(e, tags);
    OddSpaceSecond(e, tags + {[e.rest[1]]});
  }

  /**
   * As written: a tag line `:x:y:` attached to a transaction, y white space other than a blank,
   * is refused as malformed although its last segment is empty.
   */
  lemma OddSpaceTagLine(cur: Cursor, t: Transaction)
    requires cur.Valid() && |cur.rest| == 7 && cur.rest[0] == ';' && OddSpaceText(cur.rest[1..])
    ensures AttachedComment(cur, t).Err? && AttachedComment(cur, t).error.ErrMalformedTagLine?
  {
    var e := EatSpec(Next(cur), Blanks);
    assert SpanIn(Next(cur).rest, Blanks) == 0 by { assert Next(cur).rest[0] == ':'; }
    assert e == Next(cur);
    OddSpaceSegmentLoop(e, t.tags);
    AttachedByLoop(cur, t, e, Loop(e, Machine(0, [], "", t.tags)));
    assert HasNonBlank([e.rest[3]]) by { assert !IsBlank([e.rest[3]][0]); }
  }

  /** The line `:a:\v:` is such a line. */
  lemma VerticalTabOddSpace(s: seq<char>)
    requires VerticalTabText(s)
    ensures OddSpaceText(s)
  {
  }

  /** As written: the tag line `:a:\v:` is refused. */
  lemma VerticalTabTagLine(cur: Cursor, t: Transaction)
    requires cur.Valid() && |cur.rest| == 7 && cur.rest[0] == ';' && VerticalTabText(cur.rest[1..])
    ensures AttachedComment(cur, t).Err? && AttachedComment(cur, t).error.ErrMalformedTagLine?
  {
    VerticalTabOddSpace(cur.rest[1..]);
    OddSpaceTagLine(cur, t);
  }

  /** Corrected: a ':' in state 1 always starts a new segment, the tag taken or not. */
  function AfterTagFixed(m: Machine): (r: Machine)
    ensures r.state == m.state && r.key == m.key && r.ln == []
    ensures r.tags == m.tags + (if Text.TrimSpace(m.ln) != [] then {Text.TrimSpace(m.ln)} else {})
  {
    var tag := Text.TrimSpace(m.ln);
    m.(tags := if tag != [] then m.tags + {tag} else m.tags, ln := [])
  }

  /** Step with the corrected ':' of state 1. */
  function StepFixed(cur: Cursor, m: Machine): (r: Result<Parsed<Machine>, ParseError>)
    requires cur.Valid() && cur.rest != []
    ensures r.Ok? ==> r.value.cur.Valid() && r.value.cur.rest != [] && |r.value.cur.rest| < |cur.rest|
  {
    if m.state == 1 && cur.c == ':' then Checked(EatSpec(Next(cur), Blanks), AfterTagFixed(m))
    else Step(cur, m)
  }

  /** The two steps differ only on a ':' after a segment of white space that is not all gone. */
  lemma StepFixedAgrees(cur: Cursor, m: Machine)
    requires cur.Valid() && cur.rest != []
    ensures !(m.state == 1 && cur.c == ':' && m.ln != [] && Text.TrimSpace(m.ln) == []) ==>
      StepFixed(cur, m) == Step(cur, m)
  {
  }

  /** Loop with StepFixed. */
  function LoopFixed(cur: Cursor, m: Machine): (r: Result<Parsed<Machine>, ParseError>)
    requires cur.Valid() && cur.rest != []
    ensures r.Ok? ==> r.value.cur.Valid() && r.value.cur.rest != [] && |r.value.cur.rest| <= |cur.rest|
    decreases |cur.rest|
  {
    if cur.c == '\n' then Ok(Parsed(m, cur))
    else
      match StepFixed(cur, m)
      case Err(e) => Err(e)
      case Ok(p) => LoopFixed(p.cur, p.value)
  }

  /** AttachedComment with LoopFixed. */
  function AttachedCommentFixed(cur: Cursor, t: Transaction): (r: Result<Parsed<Transaction>, ParseError>)
    requires cur.Valid() && cur.rest != []
    ensures r.Ok? ==> r.value.cur.Valid() && |r.value.cur.rest| < |cur.rest|
  {
    var e := EatSpec(Next(cur), Blanks);
    if e.rest == [] then Err(ErrUnexpectedEnd(e.line))
    else
      match LoopFixed(e, Machine(0, [], "", t.tags))
      case Err(err) => Err(err)
      case Ok(p) =>
        var after := Next(p.cur);
        match Finish(t, p.value, after.line)
        case Err(err) => Err(err)
        case Ok(t1) => Ok(Parsed(t1, after))
  }

  /** LoopStep for the corrected loop. */
  lemma LoopFixedStep(cur: Cursor, m: Machine)
    requires cur.Valid() && cur.rest != [] && cur.c != '\n'
    ensures LoopFixed(cur, m) ==
      match StepFixed(cur, m) case Err(err) => Err(err) case Ok(q) => LoopFixed(q.cur, q.value)
  {
  }

  /** The corrected step on a plain character of state 1 is the step as written. */
  lemma StepFixedPlain(cur: Cursor, m: Machine)
    requires cur.Valid() && cur.rest != [] && m.state == 1 && Plain(m.state, cur.c)
    ensures StepFixed(cur, m) == Checked(Next(cur), m.(ln := m.ln + [cur.c]))
  {
    StepPlain(cur, m);
  }

  /** LoopPlainAt for the corrected loop in state 1. */
  lemma LoopFixedPlainAt(e: Cursor, j: nat, m: Machine)
    requires e.Valid() && j + 1 < |e.rest| && m.state == 1 && Plain(m.state, e.rest[j])
    ensures LoopFixed(Skip(e, j), m) == LoopFixed(Skip(e, j + 1), m.(ln := m.ln + [e.rest[j]]))
  {
    var s := e.rest;
    var cur := Skip(e, j);
    assert cur.rest == s[j..] && cur.c == s[j];
    StepFixedPlain(cur, m);
    SkipNext(e, j);
    assert Skip(e, j + 1).rest == s[j + 1..];
    LoopFixedStep(cur, m);
  }

  /** LoopPlainEnd for the corrected loop in state 1. */
  lemma LoopFixedPlainEnd(e: Cursor, j: nat, m: Machine)
    requires e.Valid() && j + 1 == |e.rest| && m.state == 1 && Plain(m.state, e.rest[j])
    ensures LoopFixed(Skip(e, j), m) == Err(ErrUnexpectedEnd(Skip(e, |e.rest|).line))
  {
    var s := e.rest;
    var cur := Skip(e, j);
    assert cur.rest == s[j..] && cur.c == s[j];
    StepFixedPlain(cur, m);
    SkipNext(e, j);
    LoopFixedStep(cur, m);
  }

  /** RunFrom for the corrected loop in state 1. */
  lemma {:induction false} RunFixed(e: Cursor, j: nat, q: nat, m: Machine)
    requires e.Valid() && j < |e.rest| && j <= q <= |e.rest| && m.state == 1
    requires forall i :: j <= i < q ==> Plain(m.state, e.rest[i])
    ensures q < |e.rest| ==> LoopFixed(Skip(e, j), m) == LoopFixed(Skip(e, q), m.(ln := m.ln + e.rest[j..q]))
    ensures q == |e.rest| ==> LoopFixed(Skip(e, j), m) == Err(ErrUnexpectedEnd(Skip(e, |e.rest|).line))
    decreases q - j
  {
    var s := e.rest;
    if j == q {
      assert m.ln + s[j..q] == m.ln;
      assert m.(ln := m.ln + s[j..q]) == m;
    } else if j + 1 < |s| {
      var m1 := m.(ln := m.ln + [s[j]]);
      LoopFixedPlainAt(e, j, m);
      RunFixed(e, j + 1, q, m1);
      AppendCons(m.ln, s, j, q);
      assert m1.(ln := m1.ln + s[j + 1..q]) == m.(ln := m.ln + s[j..q]);
    } else {
      LoopFixedPlainEnd(e, j, m);
    }
  }

  /**
   * The corrected loop in state 1 from the start j of a segment, ln empty: it runs off the end
   * of the input, or reaches the '\n' with the tags of s[j..n] added and a non-blank left in ln
   * exactly when the last segment of s[j..n] holds one.
   */
  predicate FixedOutcome(r: Result<Parsed<Machine>, ParseError>, e: Cursor, j: nat, m: Machine)
  {
    var s := e.rest;
    var n := SpanNotIn(s, "\n");
    && (n == |s| ==> r == Err(ErrUnexpectedEnd(Skip(e, |s|).line)))
    && (n < |s| && j <= n ==>
          var w := s[j..n];
          && r.Ok? && r.value.cur == Skip(e, n) && r.value.value.state == 1
          && r.value.value.tags == m.tags + TagsOf(w)
          && (HasNonBlank(r.value.value.ln) <==> HasNonBlank(Trailing(w))))
  }

  /** The corrected ':' at q in state 1: a new segment starts after the blanks that follow. */
  lemma FixedColonStep(e: Cursor, q: nat, p: nat, j1: nat, m: Machine)
    requires e.Valid() && q < |e.rest| && p == q + 1 && e.rest[q] == ':' && m.state == 1
    requires j1 == p + SpanIn(e.rest[p..], Blanks)
    ensures j1 < |e.rest| ==> LoopFixed(Skip(e, q), m) == LoopFixed(Skip(e, j1), AfterTagFixed(m))
    ensures j1 >= |e.rest| ==> LoopFixed(Skip(e, q), m) == Err(ErrUnexpectedEnd(Skip(e, |e.rest|).line))
  {
    var s := e.rest;
    assert Skip(e, q).rest == s[q..];
    if p < |s| {
      EatAfter(e, q, p);
    } else {
      assert s[p..] == [];
      NextAt(e, q, p);
    }
    SpanInFrom(s, Blanks, p);
    assert Skip(e, j1).rest == s[j1..];
    LoopFixedStep(Skip(e, q), m);
  }

  /** The last segment runs off the end of the input. */
  lemma FixedEofCase(e: Cursor, j: nat, m: Machine)
    requires e.Valid() && j < |e.rest| && j <= SpanNotIn(e.rest, "\n") && m.state == 1
    requires forall i :: j <= i < |e.rest| ==> e.rest[i] != ':' && e.rest[i] != '\n'
    ensures FixedOutcome(LoopFixed(Skip(e, j), m), e, j, m)
  {
    RunFixed(e, j, |e.rest|, m);
    NoNewlineUpTo(e.rest, j, |e.rest|);
  }

  /** The last segment ends at the '\n' at q. */
  lemma FixedEndCase(e: Cursor, j: nat, q: nat, m: Machine)
    requires e.Valid() && j <= q < |e.rest| && j <= SpanNotIn(e.rest, "\n") && m.state == 1 && m.ln == []
    requires forall i :: j <= i < q ==> e.rest[i] != ':' && e.rest[i] != '\n'
    requires e.rest[q] == '\n'
    ensures FixedOutcome(LoopFixed(Skip(e, j), m), e, j, m)
  {
    var s := e.rest;
    RunFixed(e, j, q, m);
    NoNewlineUpTo(s, j, q);
    SpanNotInStop(s, "\n", q);
    assert Skip(e, q).rest == s[q..];
    TagsEndAt(s, j, q);
    assert m.ln + s[j..q] == s[j..q];
  }

  /** A segment closed by ':' at q with only blanks after it to the end of the input. */
  lemma FixedColonLast(e: Cursor, j: nat, q: nat, p: nat, j1: nat, m: Machine)
    requires e.Valid() && j <= q < |e.rest| && j <= SpanNotIn(e.rest, "\n")
    requires q == j + SpanNotIn(e.rest[j..], ":\n") && e.rest[q] == ':'
    requires p == q + 1 && j1 == p + SpanIn(e.rest[p..], Blanks) && j1 >= |e.rest|
    requires m.state == 1
    ensures FixedOutcome(LoopFixed(Skip(e, j), m), e, j, m)
  {
    var s := e.rest;
    SpanNotInFrom(s, ":\n", j);
    RunFixed(e, j, q, m);
    FixedColonStep(e, q, p, j1, m.(ln := m.ln + s[j..q]));
    SpanInFrom(s, Blanks, p);
    NoNewlineUpTo(s, j, q);
    BlanksBeforeEnd(s, q, j1);
  }

  /** The corrected run from j over the segment and its ':' lands on j1 with ln cleared. */
  lemma FixedColonRun(e: Cursor, j: nat, q: nat, p: nat, j1: nat, m: Machine)
    requires e.Valid() && j <= q < |e.rest| && j <= SpanNotIn(e.rest, "\n")
    requires q == j + SpanNotIn(e.rest[j..], ":\n") && e.rest[q] == ':'
    requires p == q + 1 && j1 == p + SpanIn(e.rest[p..], Blanks) && j1 < |e.rest|
    requires m.state == 1
    ensures LoopFixed(Skip(e, j), m) == LoopFixed(Skip(e, j1), AfterTagFixed(m.(ln := m.ln + e.rest[j..q])))
    ensures j1 <= SpanNotIn(e.rest, "\n")
    ensures forall i :: j <= i < q ==> e.rest[i] != ':'
    ensures forall i :: q < i < j1 ==> e.rest[i] in Blanks
  {
    var s := e.rest;
    SpanNotInFrom(s, ":\n", j);
    RunFixed(e, j, q, m);
    FixedColonStep(e, q, p, j1, m.(ln := m.ln + s[j..q]));
    SpanInFrom(s, Blanks, p);
    NoNewlineUpTo(s, j, q);
    BlanksBeforeEnd(s, q, j1);
  }

  /** FixedOutcome carried back over a segment, stated on what the segment contributes. */
  lemma FixedOutcomeBack(r: Result<Parsed<Machine>, ParseError>, e: Cursor, j: nat, j1: nat, m: Machine, m2: Machine, first: set<string>)
    requires j <= j1 <= SpanNotIn(e.rest, "\n") && FixedOutcome(r, e, j1, m2)
    requires m2.tags == m.tags + first
    requires var s := e.rest; var n := SpanNotIn(s, "\n"); n < |s| ==>
      && TagsOf(s[j..n]) == first + TagsOf(s[j1..n])
      && (HasNonBlank(Trailing(s[j..n])) <==> HasNonBlank(Trailing(s[j1..n])))
    ensures FixedOutcome(r, e, j, m)
  {
    var s := e.rest;
    var n := SpanNotIn(s, "\n");
    if n < |s| {
      UnionAssoc(m.tags, first, TagsOf(s[j1..n]));
    }
  }

  lemma UnionAssoc(a: set<string>, b: set<string>, c: set<string>)
    ensures (a + b) + c == a + (b + c)
  {
  }

  /**
   * A segment closed by ':' at q with more of the line after the blanks that follow: the
   * corrected loop goes on at j1 with ln empty, so the outcome from j follows from the outcome
   * from j1.
   */
  lemma FixedColonNext(e: Cursor, j: nat, q: nat, p: nat, j1: nat, m: Machine)
    requires e.Valid() && j <= q < |e.rest| && j <= SpanNotIn(e.rest, "\n")
    requires q == j + SpanNotIn(e.rest[j..], ":\n") && e.rest[q] == ':'
    requires p == q + 1 && j1 == p + SpanIn(e.rest[p..], Blanks) && j1 < |e.rest|
    requires m.state == 1 && m.ln == []
    ensures var m2 := AfterTagFixed(m.(ln := m.ln + e.rest[j..q]));
      && j1 <= SpanNotIn(e.rest, "\n") && m2.state == 1 && m2.ln == []
      && (FixedOutcome(LoopFixed(Skip(e, j1), m2), e, j1, m2) ==> FixedOutcome(LoopFixed(Skip(e, j), m), e, j, m))
  {
    var s := e.rest;
    var n := SpanNotIn(s, "\n");
    FixedColonRun(e, j, q, p, j1, m);
    var m2 := AfterTagFixed(m.(ln := m.ln + s[j..q]));
    var tag := Text.TrimSpace(s[j..q]);
    var first: set<string> := if tag != [] then {tag} else {};
    assert m.ln + s[j..q] == s[j..q];
    assert m2.tags == m.tags + first;
    if n < |s| {
      TagsSplit(s, j, q, n, j1);
    }
    if FixedOutcome(LoopFixed(Skip(e, j1), m2), e, j1, m2) {
      FixedOutcomeBack(LoopFixed(Skip(e, j1), m2), e, j, j1, m, m2, first);
    }
  }

  /** The corrected loop in state 1 from the start of a segment, by induction over the segments. */
  lemma {:induction false} FixedScanFrom(e: Cursor, j: nat, m: Machine)
    requires e.Valid() && j < |e.rest| && j <= SpanNotIn(e.rest, "\n")
    requires m.state == 1 && m.ln == []
    ensures FixedOutcome(LoopFixed(Skip(e, j), m), e, j, m)
    decreases |e.rest| - j
  {
    var s := e.rest;
    var q: nat := j + SpanNotIn(s[j..], ":\n");
    SpanNotInFrom(s, ":\n", j);
    if q == |s| {
      FixedEofCase(e, j, m);
    } else if s[q] == '\n' {
      FixedEndCase(e, j, q, m);
    } else {
      var p: nat := q + 1;
      var j1: nat := p + SpanIn(s[p..], Blanks);
      if j1 < |s| {
        FixedColonNext(e, j, q, p, j1, m);
        FixedScanFrom(e, j1, AfterTagFixed(m.(ln := m.ln + s[j..q])));
      } else {
        FixedColonLast(e, j, q, p, j1, m);
      }
    }
  }

  /** A line opening with ':': the corrected loop enters state 1 and scans from position 1. */
  lemma FixedLineLoop(e: Cursor, tags: set<string>)
    requires e.Valid() && e.rest != [] && e.rest[0] == ':'
    ensures FixedOutcome(LoopFixed(e, Machine(0, [], "", tags)), e, 1, Machine(1, [], "", tags))
  {
    var s := e.rest;
    NextSkip(e);
    assert Skip(e, 1).rest == s[1..];
    LoopFixedStep(e, Machine(0, [], "", tags));
    if 1 < |s| {
      assert s[..1] == [':'];
      FixedScanFrom(e, 1, Machine(1, [], "", tags));
    } else {
      assert SpanNotIn(s, "\n") == 1;
    }
  }

  /**
   * Corrected: a tag line attached to a transaction runs off the input as an unexpected end;
   * otherwise it is malformed exactly when its last segment holds a non-blank, and when it is
   * not, its tags join the transaction's and the reader moves past the '\n'.
   */
  lemma TagLineFixed(cur: Cursor, t: Transaction, e: Cursor, n: nat)
    requires cur.Valid() && cur.rest != [] && e == EatSpec(Next(cur), Blanks)
    requires e.rest != [] && e.rest[0] == ':' && n == SpanNotIn(e.rest, "\n")
    ensures n == |e.rest| ==> AttachedCommentFixed(cur, t) == Err(ErrUnexpectedEnd(Skip(e, |e.rest|).line))
    ensures n < |e.rest| && HasNonBlank(Trailing(e.rest[1..n])) ==>
      AttachedCommentFixed(cur, t) == Err(ErrMalformedTagLine(Skip(e, n + 1).line))
    ensures n < |e.rest| && !HasNonBlank(Trailing(e.rest[1..n])) ==>
      AttachedCommentFixed(cur, t) == Ok(Parsed(t.(tags := t.tags + TagsOf(e.rest[1..n])), Skip(e, n + 1)))
  {
    FixedLineLoop(e, t.tags);
    if n < |e.rest| {
      assert SpanNotIn(e.rest, "\n") >= 1 by {
        assert e.rest[0] != '\n';
      }
      NextAt(e, n, n + 1);
    }
  }

  /** The text of `:x:y:` after its leading ':' has the one tag x and an empty last segment. */
  lemma OddSpaceSegments(w: string)
    requires |w| == 4 && w[1] == ':' && w[3] == ':' && w[0] != ':' && !Text.IsSpace(w[0])
    requires w[2] != ':' && Text.IsSpace(w[2])
    ensures TagsOf(w) == {[w[0]]} && Trailing(w) == []
  {
    SpanNotInAt(w, ":", 1);
    OddSpaceLastSegment(w[2..]);
    assert Trailing(w) == Trailing(w[2..]);
    assert w[..1] == [w[0]];
    Text.TrimSpaceNoSpace(w[..1]);
    assert TagsOf(w) == {[w[0]]} + TagsOf(w[2..]);
  }

  /** The last segment y: of `:x:y:` has no tag and nothing after its ':'. */
  lemma OddSpaceLastSegment(w2: string)
    requires |w2| == 2 && w2[0] != ':' && Text.IsSpace(w2[0]) && w2[1] == ':'
    ensures TagsOf(w2) == {} && Trailing(w2) == []
  {
    SpanNotInAt(w2, ":", 1);
    assert w2[2..] == [];
    assert Trailing(w2) == Trailing([]);
    assert w2[..1] == [w2[0]];
    assert Text.TrimSpace(w2[..1]) == [];
    assert TagsOf(w2) == TagsOf([]);
  }

  /** Corrected: the tag line `:x:y:` gives the one tag x. */
  lemma OddSpaceTagLineFixed(cur: Cursor, t: Transaction)
    requires cur.Valid() && |cur.rest| == 7 && cur.rest[0] == ';' && OddSpaceText(cur.rest[1..])
    ensures AttachedCommentFixed(cur, t) == Ok(Parsed(t.(tags := t.tags + {[cur.rest[2]]}), Skip(EatSpec(Next(cur), Blanks), 6)))
  {
    var e := EatSpec(Next(cur), Blanks);
    assert SpanIn(Next(cur).rest, Blanks) == 0 by { assert Next(cur).rest[0] == ':'; }
    assert e == Next(cur);
    var s := e.rest;
    SpanNotInAt(s, "\n", 5);
    OddSpaceSegments(s[1..5]);
    TagLineFixed(cur, t, e, 5);
    assert HasNonBlank([]) == false;
  }

  /** Corrected: the tag line `:a:\v:` gives the one tag a. */
  lemma VerticalTabTagLineFixed(cur: Cursor, t: Transaction)
    requires cur.Valid() && |cur.rest| == 7 && cur.rest[0] == ';' && VerticalTabText(cur.rest[1..])
    ensures AttachedCommentFixed(cur, t).Ok? && AttachedCommentFixed(cur, t).value.value.tags == t.tags + {"a"}
  {
    VerticalTabOddSpace(cur.rest[1..]);
    OddSpaceTagLineFixed(cur, t);
    assert [cur.rest[2]] == "a";
  }
}
