/**
 * The CharReader of parse/lex/lexer.go and its Location type. The reader is the one of
 * parse/lexer.go with the line counters replaced by Locations (a 48-bit line and a 16-bit
 * column packed into a uint64). The Location constructors combine with `&` where `|` was
 * meant, so every Location the reader produces is 0: the line information is lost.
 */
module Lex {
  import opened Chars
  import Fmt
  import opened Wrappers

  /** A packed position: the line in the low 48 bits and the column in the high 16. */
  type Location = bv64

  const LineMask: bv64 := 0x0000_ffff_ffff_ffff
  const ColumnMask: bv64 := 0xffff_0000_0000_0000

  /** Line: the low 48 bits of l. */
  function Line(l: Location): (r: bv64)
    ensures r <= LineMask
    ensures r | (l & ColumnMask) == l
  {
    l & LineMask
  }

  /** Column: the high 16 bits of l. */
  function Column(l: Location): (r: bv16)
    ensures r as bv64 == l >> 48
  {
    ((l & ColumnMask) >> 48) as bv16
  }

  /** Line and Column together hold all of l: the column is the part above bit 48. */
  lemma LineColumn(l: Location)
    ensures Column(l) as bv64 == l >> 48
    ensures l == ((l >> 48) << 48) | Line(l)
  {
  }

  /** Location.String: "line:column" in decimal. */
  function LocationString(l: Location): (r: string)
    ensures r == Fmt.Decimal(Line(l) as int) + ":" + Fmt.Decimal(Column(l) as int)
    ensures Fmt.ParseDecimalPair(r) == Some((Line(l) as int, Column(l) as int))
  {
    Fmt.PairRoundTrip(Line(l) as int, Column(l) as int);
    Fmt.Decimal(Line(l) as int) + ":" + Fmt.Decimal(Column(l) as int)
  }

  /**
   * Location.L, meant to set the line part (an argument wider than 48 bits becomes 0).
   * The high part is kept with a mask and then combined with the new line by `&`, so the
   * result is 0 whatever l and i are.
   */
  function WithLine(l: Location, i: bv64): (r: Location)
    ensures r == 0
    ensures Line(r) == 0 && Column(r) == 0
  {
    var i' := if i & ColumnMask != 0 then 0 else i;
    (l & ColumnMask) & i'
  }

  /**
   * Location.C, meant to set the column part. Every nonzero column fails the width check
   * against the 48-bit line mask and becomes 0, and the parts are combined by `&`, so the
   * result is 0 whatever l and i are.
   */
  function WithColumn(l: Location, i: bv16): (r: Location)
    ensures r == 0
    ensures i != 0 ==> i as bv64 & LineMask != 0
  {
    var i' := if i as bv64 & LineMask != 0 then 0 else i;
    (l & LineMask) & (i' as bv64 << 48)
  }

  /** LPlus, documented to increment the line: it yields 0. */
  function LPlus(l: Location): (r: Location)
    ensures r == 0 && Line(r) == 0
  {
    WithLine(l, Line(l))
  }

  /** CPlus, documented to increment the column: it yields 0. */
  function CPlus(l: Location): (r: Location)
    ensures r == 0 && Column(r) == 0
  {
    WithColumn(l, Column(l))
  }

  // The constructors as evidently intended: the parts combined by `|`, the column checked
  // against its own 16 bits (so it always fits) and LPlus/CPlus adding one.

  /** Location.L corrected: the new line (0 if wider than 48 bits) under the old column. */
  function WithLineFixed(l: Location, i: bv64): (r: Location)
    ensures Line(r) == (if i & ColumnMask != 0 then 0 else i)
    ensures Column(r) == Column(l)
  {
    var i' := if i & ColumnMask != 0 then 0 else i;
    (l & ColumnMask) | i'
  }

  /** Location.C corrected: the new column above the old line. */
  function WithColumnFixed(l: Location, i: bv16): (r: Location)
    ensures Column(r) == i
    ensures Line(r) == Line(l)
  {
    (l & LineMask) | (i as bv64 << 48)
  }

  /** LPlus corrected: the next line, the column kept; a line at the 48-bit limit wraps to 0. */
  function LPlusFixed(l: Location): (r: Location)
    ensures Line(l) < LineMask ==> Line(r) == Line(l) + 1
    ensures Line(l) == LineMask ==> Line(r) == 0
    ensures Column(r) == Column(l)
  {
    WithLineFixed(l, Line(l) + 1)
  }

  /** CPlus corrected: the next column (wrapping at 16 bits), the line kept. */
  function CPlusFixed(l: Location): (r: Location)
    ensures Column(r) == Column(l) + 1
    ensures Line(r) == Line(l)
  {
    WithColumnFixed(l, Column(l) + 1)
  }

  /** The line 5 is lost by Location.L as written and kept by the corrected one. */
  lemma LineFiveLost()
    ensures Line(WithLine(0, 5)) == 0
    ensures Line(WithLineFixed(0, 5)) == 5
    ensures Line(LPlus(WithLineFixed(0, 5))) == 0 && Line(LPlusFixed(WithLineFixed(0, 5))) == 6
  {
  }

  class CharReader {
    // The rune reader is modelled as the string it reads and a position in it.
    const source: seq<char>
    var pos: nat

    // The current character
    var L: Location
    var C: char
    var EOF: bool

    // The lookahead (next) character
    var NL: Location
    var NC: char
    var NEOF: bool

    ghost predicate Valid()
      reads this
    {
      && pos <= |source|
      && (EOF ==> NEOF)
      && (NEOF ==> pos == |source| && NC == '\0')
      && (!NEOF ==> NC != '\r')
      && L == 0 && NL == 0
      && (!EOF ==> C != '\r')
    }

    /** What the lookahead still holds: NC followed by the unread source. */
    ghost function Ahead(): seq<char>
      reads this
    {
      if NEOF || pos > |source| then [] else [NC] + Strip(source[pos..])
    }

    /** The characters still to be delivered, starting with C. */
    ghost function Rest(): seq<char>
      reads this
    {
      if EOF then [] else [C] + Ahead()
    }

    ghost function State(): (r: Cursor)
      reads this
      ensures Valid() ==> r.Valid()
    {
      Cursor(Rest(), C, 0)
    }

    /** NewCharReader: the input is advanced twice so that C and NC are both valid. */
    constructor (source: seq<char>, line: bv64)
      ensures Valid() && this.source == source
      ensures State() == Start(source, 0).(line := 0)
      ensures L == 0 && NL == 0
    {
      this.source := source;
      pos := 0;
      L, C, EOF := WithLine(0, line), '\0', false;
      NL, NC, NEOF := WithLine(0, line), '\0', false;
      new;
      Next();
      Next();
      assert Strip(source) == Strip(source[0..]);
    }

    /** Match: C is one of chars (never at EOF). */
    function Match(chars: seq<char>): (r: bool)
      reads this
      requires Valid()
      ensures r <==> State().rest != [] && State().rest[0] in chars
    {
      !EOF && C in chars
    }

    /** NMatch: NC is one of chars (never once the lookahead is exhausted). */
    function NMatch(chars: seq<char>): (r: bool)
      reads this
      requires Valid()
      ensures r <==> |State().rest| >= 2 && State().rest[1] in chars
    {
      !NEOF && NC in chars
    }

    /** MatchAlpha: C is '_' or a letter; unicode.IsLetter is the parameter isLetter. */
    function MatchAlpha(isLetter: char -> bool): (r: bool)
      reads this
      requires Valid()
      ensures r <==> State().rest != [] && (State().rest[0] == '_' || isLetter(State().rest[0]))
    {
      if EOF then false else C == '_' || isLetter(C)
    }

    /** MatchNumeric: C is an ASCII decimal digit. */
    function MatchNumeric(): (r: bool)
      reads this
      requires Valid()
      ensures r <==> State().rest != [] && '0' <= State().rest[0] <= '9'
    {
      if EOF then false else '0' <= C <= '9'
    }

    /**
     * Next: C, L and EOF take the old NC, NL and NEOF; a fresh character is read into NC and
     * carriage returns are skipped. NL is rebuilt with LPlus or CPlus, which yield 0.
     */
    method Next()
      requires Valid()
      modifies this
      ensures Valid()
      ensures State() == Chars.Next(old(State())).(line := 0)
      ensures old(EOF) ==> unchanged(this)
      ensures EOF == (old(EOF) || old(NEOF))
      ensures !old(EOF) && !old(NEOF) ==> C == old(NC) && L == old(NL)
      ensures L == 0 && NL == 0
      ensures (!EOF ==> C != '\r') && (!NEOF ==> NC != '\r')
    {
      if EOF {
        return;
      }
      if NEOF {
        EOF := true;
        return;
      }
      C := NC;
      L := NL;
      ReadAhead();
    }

    /** The tail of Next that refills NC from the source (the `again:` label and what follows). */
    method ReadAhead()
      requires pos <= |source| && !EOF && !NEOF && NL == 0 && L == 0 && C != '\r'
      modifies this`pos, this`NC, this`NL, this`NEOF
      ensures Valid()
      ensures Ahead() == old(Strip(source[pos..]))
    {
      ghost var tail := Strip(source[pos..]);
      var p := SkipCarriageReturns(source, pos);
      if p == |source| {
        pos, NC, NEOF := p, '\0', true;
        return;
      }
      StripCons(source, p);
      pos, NC := p + 1, source[p];
      if NC == '\n' {
        NL := WithColumn(LPlus(NL), 0);
        return;
      }
      NL := CPlus(NL);
    }

    /** One Next() inside a scan that started at start and has consumed j characters. */
    method Step(ghost start: Cursor, ghost j: nat)
      requires Valid() && !EOF && start.Valid() && State() == SkipFlat(start, j)
      modifies this
      ensures Valid()
      ensures j < |start.rest| && old(C) == start.rest[j]
      ensures State() == SkipFlat(start, j + 1)
      ensures EOF <==> j + 1 >= |start.rest|
      ensures !EOF ==> C == start.rest[j + 1]
    {
      SkipFlatNext(start, j);
      Next();
    }

    /** Eat: skip characters of chars until another character or EOF. */
    method Eat(chars: seq<char>)
      requires Valid()
      modifies this
      ensures Valid()
      ensures State() == EatSpec(old(State()), chars).(line := 0)
      ensures EOF || C !in chars
    {
      ghost var start := State();
      ghost var s := start.rest;
      ghost var j: nat := 0;
      while Match(chars)
        invariant Valid()
        invariant j <= SpanIn(s, chars) && State() == SkipFlat(start, j)
        invariant EOF <==> j >= |s|
        invariant !EOF ==> C == s[j]
        decreases |s| - j
      {
        SpanInMore(s, chars, j);
        Step(start, j);
        j := j + 1;
        if EOF {
          SpanInStop(s, chars, j);
          SkipFlatIsSkip(start, j);
          return;
        }
      }
      SpanInStop(s, chars, j);
      SkipFlatIsSkip(start, j);
    }

    /** EatUntil: skip characters until one of chars or EOF. */
    method EatUntil(chars: seq<char>)
      requires Valid()
      modifies this
      ensures Valid()
      ensures State() == EatUntilSpec(old(State()), chars).(line := 0)
      ensures EOF || C in chars
    {
      ghost var start := State();
      if EOF {
        // the loop body runs once: Next() leaves the reader as it is
        EatUntilAtEnd(start, chars);
        Next();
        return;
      }
      ghost var s := start.rest;
      ghost var j: nat := 0;
      while !Match(chars)
        invariant Valid() && !EOF
        invariant j <= SpanNotIn(s, chars) && State() == SkipFlat(start, j)
        invariant j < |s| && C == s[j]
        decreases |s| - j
      {
        SpanNotInMore(s, chars, j);
        Step(start, j);
        j := j + 1;
        if EOF {
          break;
        }
      }
      SpanNotInStop(s, chars, j);
      SkipFlatIsSkip(start, j);
    }

    /** ReadMatch: like Eat, appending every consumed character to buf. */
    method ReadMatch(chars: seq<char>, buf: seq<char>) returns (out: seq<char>)
      requires Valid()
      modifies this
      ensures Valid()
      ensures State() == EatSpec(old(State()), chars).(line := 0)
      ensures out == buf + old(State()).rest[..SpanIn(old(State()).rest, chars)]
      ensures EOF || C !in chars
    {
      out := buf;
      ghost var start := State();
      ghost var s := start.rest;
      ghost var j: nat := 0;
      while Match(chars)
        invariant Valid()
        invariant j <= SpanIn(s, chars) && State() == SkipFlat(start, j)
        invariant EOF <==> j >= |s|
        invariant !EOF ==> C == s[j]
        invariant out == buf + s[..j]
        decreases |s| - j
      {
        SpanInMore(s, chars, j);
        PrefixSnoc(buf, s, j);
        out := out + [C];
        Step(start, j);
        j := j + 1;
        if EOF {
          SpanInStop(s, chars, j);
          SkipFlatIsSkip(start, j);
          return;
        }
      }
      SpanInStop(s, chars, j);
      SkipFlatIsSkip(start, j);
    }

    /**
     * ReadMatchLimit: like ReadMatch, but stops after limit characters. The flag is true
     * iff exactly limit characters were read and the last of them did not reach EOF.
     */
    method ReadMatchLimit(chars: seq<char>, buf: seq<char>, limit: int) returns (ok: bool, out: seq<char>)
      requires Valid()
      modifies this
      ensures Valid()
      ensures State() == Skip(old(State()), LimitCount(old(State()).rest, chars, limit)).(line := 0)
      ensures out == buf + old(State()).rest[..LimitCount(old(State()).rest, chars, limit)]
      ensures ok == LimitHit(old(State()).rest, chars, limit)
    {
      out := buf;
      ghost var start := State();
      ghost var s := start.rest;
      var i: nat := 0;
      while Match(chars) && i < limit
        invariant Valid()
        invariant 0 <= i <= SpanIn(s, chars) && i <= Max0(limit) && State() == SkipFlat(start, i)
        invariant EOF <==> i >= |s|
        invariant !EOF ==> C == s[i]
        invariant i > 0 ==> i < |s|
        invariant out == buf + s[..i]
        decreases |s| - i
      {
        SpanInMore(s, chars, i);
        PrefixSnoc(buf, s, i);
        out := out + [C];
        Step(start, i);
        if EOF {
          LimitExit(start, chars, limit, i + 1);
          return false, out;
        }
        i := i + 1;
      }
      LimitExit(start, chars, limit, i);
      return i == limit, out;
    }

    /**
     * ReadUntil: append characters to buf until one of chars or EOF. At EOF the loop body
     * still runs once, appending the stale C.
     */
    method ReadUntil(chars: seq<char>, buf: seq<char>) returns (out: seq<char>)
      requires Valid()
      modifies this
      ensures Valid()
      ensures State() == EatUntilSpec(old(State()), chars).(line := 0)
      ensures out == buf + (if old(EOF) then [old(C)] else old(State()).rest[..SpanNotIn(old(State()).rest, chars)])
      ensures EOF || C in chars
    {
      ghost var start := State();
      if EOF {
        EatUntilAtEnd(start, chars);
        out := buf + [C];
        Next();
        return;
      }
      out := buf;
      ghost var s := start.rest;
      ghost var j: nat := 0;
      while !Match(chars)
        invariant Valid() && !EOF
        invariant j <= SpanNotIn(s, chars) && State() == SkipFlat(start, j)
        invariant j < |s| && C == s[j]
        invariant out == buf + s[..j]
        decreases |s| - j
      {
        SpanNotInMore(s, chars, j);
        PrefixSnoc(buf, s, j);
        out := out + [C];
        Step(start, j);
        j := j + 1;
        if EOF {
          break;
        }
      }
      EatUntilExit(start, chars, j);
      SkipFlatIsSkip(start, j);
      assert !old(EOF) && old(State()) == start;
    }
  }
}
