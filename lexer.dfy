/**
 * The CharReader of parse/lexer.go: a cursor over a string with one character of
 * lookahead and integer line numbers. The strings.Reader it wraps is the field pair
 * (source, pos); State() is its abstract value as a Chars.Cursor.
 */
module Lexer {
  import opened Chars

  class CharReader {
    const source: seq<char>
    var pos: nat

    // The current character
    var L: int
    var C: char
    var EOF: bool

    // The lookahead (next) character
    var NL: int
    var NC: char
    var NEOF: bool

    ghost predicate Valid()
      reads this
    {
      && pos <= |source|
      && (EOF ==> NEOF)
      && (NEOF ==> pos == |source| && NC == '\0')
      && (!NEOF ==> NC != '\r' && NL == L + (if NC == '\n' then 1 else 0))
      && (!EOF ==> C != '\r')
    }

    /** What the lookahead still holds: NC followed by the unread source. */
    ghost function Ahead(): seq<char>
      reads this
    {
      if NEOF || pos > |source| then [] else [NC] + Strip(source[pos..])
    }

    /** The characters still to be delivered, starting with C. */
    ghost function Rest(): seq<char>
      reads this
    {
      if EOF then [] else [C] + Ahead()
    }

    ghost function State(): (r: Cursor)
      reads this
      ensures Valid() ==> r.Valid()
    {
      Cursor(Rest(), C, L)
    }

    /** NewCharReader: the input is advanced twice so that C and NC are both valid. */
    constructor (source: seq<char>, line: int)
      ensures Valid() && this.source == source
      ensures State() == Start(source, line)
    {
      this.source := source;
      pos := 0;
      L, C, EOF := line, '\0', false;
      NL, NC, NEOF := line, '\0', false;
      new;
      Next();
      Next();
      assert Strip(source) == Strip(source[0..]);
    }

    /** Match: C is one of chars (never at EOF). */
    function Match(chars: seq<char>): (r: bool)
      reads this
      requires Valid()
      ensures r <==> State().rest != [] && State().rest[0] in chars
    {
      !EOF && C in chars
    }

    /** NMatch: NC is one of chars (never once the lookahead is exhausted). */
    function NMatch(chars: seq<char>): (r: bool)
      reads this
      requires Valid()
      ensures r <==> |State().rest| >= 2 && State().rest[1] in chars
    {
      !NEOF && NC in chars
    }

    /** MatchAlpha: C is '_' or a letter; unicode.IsLetter is the parameter isLetter. */
    function MatchAlpha(isLetter: char -> bool): (r: bool)
      reads this
      requires Valid()
      ensures r <==> State().rest != [] && (State().rest[0] == '_' || isLetter(State().rest[0]))
    {
      if EOF then false else C == '_' || isLetter(C)
    }

    /** MatchNumeric: C is an ASCII decimal digit. */
    function MatchNumeric(): (r: bool)
      reads this
      requires Valid()
      ensures r <==> State().rest != [] && '0' <= State().rest[0] <= '9'
    {
      if EOF then false else '0' <= C <= '9'
    }

    /**
     * Next: C, L and EOF take the old NC, NL and NEOF; a fresh character is read into NC,
     * carriage returns are skipped and a newline bumps NL.
     */
    method Next()
      requires Valid()
      modifies this
      ensures Valid()
      ensures State() == Chars.Next(old(State()))
      ensures old(EOF) ==> unchanged(this)
      ensures EOF == (old(EOF) || old(NEOF))
      ensures !old(EOF) && !old(NEOF) ==> C == old(NC) && L == old(NL)
      ensures !old(EOF) && !old(NEOF) && !NEOF ==> NL == old(NL) + (if NC == '\n' then 1 else 0)
      ensures (!EOF ==> C != '\r') && (!NEOF ==> NC != '\r')
    {
      if EOF {
        return;
      }
      if NEOF {
        EOF := true;
        return;
      }
      C := NC;
      L := NL;
      ReadAhead();
    }

    /** The tail of Next that refills NC from the source (the `again:` label and what follows). */
    method ReadAhead()
      requires pos <= |source| && !EOF && !NEOF && NL == L && C != '\r'
      modifies this`pos, this`NC, this`NL, this`NEOF
      ensures Valid()
      ensures Ahead() == old(Strip(source[pos..]))
      ensures !NEOF ==> NL == L + (if NC == '\n' then 1 else 0)
    {
      ghost var tail := Strip(source[pos..]);
      var p := SkipCarriageReturns(source, pos);
      if p == |source| {
        pos, NC, NEOF := p, '\0', true;
        return;
      }
      StripCons(source, p);
      pos, NC := p + 1, source[p];
      if NC == '\n' {
        NL := NL + 1;
        return;
      }
    }

    /** One Next() inside a scan that started at start and has consumed j characters. */
    method Step(ghost start: Cursor, ghost j: nat)
      requires Valid() && !EOF && start.Valid() && State() == Skip(start, j)
      modifies this
      ensures Valid()
      ensures j < |start.rest| && old(C) == start.rest[j]
      ensures State() == Skip(start, j + 1)
      ensures EOF <==> j + 1 >= |start.rest|
      ensures !EOF ==> C == start.rest[j + 1]
    {
      SkipNext(start, j);
      Next();
    }

    /** Eat: skip characters of chars until another character or EOF. */
    method Eat(chars: seq<char>)
      requires Valid()
      modifies this
      ensures Valid()
      ensures State() == EatSpec(old(State()), chars)
      ensures EOF || C !in chars
    {
      ghost var start := State();
      ghost var s := start.rest;
      ghost var j: nat := 0;
      while Match(chars)
        invariant Valid()
        invariant j <= SpanIn(s, chars) && State() == Skip(start, j)
        invariant EOF <==> j >= |s|
        invariant !EOF ==> C == s[j]
        decreases |s| - j
      {
        SpanInMore(s, chars, j);
        Step(start, j);
        j := j + 1;
        if EOF {
          SpanInStop(s, chars, j);
          return;
        }
      }
      SpanInStop(s, chars, j);
    }

    /** EatUntil: skip characters until one of chars or EOF. */
    method EatUntil(chars: seq<char>)
      requires Valid()
      modifies this
      ensures Valid()
      ensures State() == EatUntilSpec(old(State()), chars)
      ensures EOF || C in chars
    {
      ghost var start := State();
      if EOF {
        // the loop body runs once: Next() leaves the reader as it is
        EatUntilAtEnd(start, chars);
        Next();
        return;
      }
      ghost var s := start.rest;
      ghost var j: nat := 0;
      while !Match(chars)
        invariant Valid() && !EOF
        invariant j <= SpanNotIn(s, chars) && State() == Skip(start, j)
        invariant j < |s| && C == s[j]
        decreases |s| - j
      {
        SpanNotInMore(s, chars, j);
        Step(start, j);
        j := j + 1;
        if EOF {
          break;
        }
      }
      EatUntilExit(start, chars, j);
      assert old(State()) == start;
    }

    /** ReadMatch: like Eat, appending every consumed character to buf. */
    method ReadMatch(chars: seq<char>, buf: seq<char>) returns (out: seq<char>)
      requires Valid()
      modifies this
      ensures Valid()
      ensures State() == EatSpec(old(State()), chars)
      ensures out == buf + old(State()).rest[..SpanIn(old(State()).rest, chars)]
      ensures EOF || C !in chars
    {
      out := buf;
      ghost var start := State();
      ghost var s := start.rest;
      ghost var j: nat := 0;
      while Match(chars)
        invariant Valid()
        invariant j <= SpanIn(s, chars) && State() == Skip(start, j)
        invariant EOF <==> j >= |s|
        invariant !EOF ==> C == s[j]
        invariant out == buf + s[..j]
        decreases |s| - j
      {
        SpanInMore(s, chars, j);
        PrefixSnoc(buf, s, j);
        out := out + [C];
        Step(start, j);
        j := j + 1;
        if EOF {
          SpanInStop(s, chars, j);
          return;
        }
      }
      SpanInStop(s, chars, j);
    }

    /**
     * ReadMatchLimit: like ReadMatch, but stops after limit characters. The flag is true
     * iff exactly limit characters were read and the last of them did not reach EOF.
     */
    method ReadMatchLimit(chars: seq<char>, buf: seq<char>, limit: int) returns (ok: bool, out: seq<char>)
      requires Valid()
      modifies this
      ensures Valid()
      ensures State() == Skip(old(State()), LimitCount(old(State()).rest, chars, limit))
      ensures out == buf + old(State()).rest[..LimitCount(old(State()).rest, chars, limit)]
      ensures ok == LimitHit(old(State()).rest, chars, limit)
    {
      out := buf;
      ghost var start := State();
      ghost var s := start.rest;
      var i: nat := 0;
      var ended := false;
      while Match(chars) && i < limit
        invariant Valid()
        invariant 0 <= i <= SpanIn(s, chars) && i <= Max0(limit) && State() == Skip(start, i)
        invariant EOF <==> i >= |s|
        invariant !EOF ==> C == s[i]
        invariant i > 0 ==> i < |s|
        invariant out == buf + s[..i]
        invariant !ended
        decreases |s| - i
      {
        SpanInMore(s, chars, i);
        PrefixSnoc(buf, s, i);
        out := out + [C];
        Step(start, i);
        i := i + 1;
        if EOF {
          // the early `return false` when Next reaches the end
          ended := true;
          break;
        }
      }
      LimitStop(s, chars, limit, i);
      assert old(State()) == start && LimitCount(s, chars, limit) == i;
      ok := !ended && i == limit;
    }

    /**
     * ReadUntil: append characters to buf until one of chars or EOF. At EOF the loop body
     * still runs once, appending the stale C.
     */
    method ReadUntil(chars: seq<char>, buf: seq<char>) returns (out: seq<char>)
      requires Valid()
      modifies this
      ensures Valid()
      ensures State() == EatUntilSpec(old(State()), chars)
      ensures out == buf + (if old(EOF) then [old(C)] else old(State()).rest[..SpanNotIn(old(State()).rest, chars)])
      ensures EOF || C in chars
    {
      ghost var start := State();
      if EOF {
        EatUntilAtEnd(start, chars);
        out := buf + [C];
        Next();
        return;
      }
      out := buf;
      ghost var s := start.rest;
      ghost var j: nat := 0;
      while !Match(chars)
        invariant Valid() && !EOF
        invariant j <= SpanNotIn(s, chars) && State() == Skip(start, j)
        invariant j < |s| && C == s[j]
        invariant out == buf + s[..j]
        decreases |s| - j
      {
        SpanNotInMore(s, chars, j);
        PrefixSnoc(buf, s, j);
        out := out + [C];
        Step(start, j);
        j := j + 1;
        if EOF {
          break;
        }
      }
      EatUntilExit(start, chars, j);
      assert !old(EOF) && old(State()) == start;
    }
  }
}
