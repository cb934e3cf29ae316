/**
 * The character-level view shared by both CharReader classes (parse/lexer.go and
 * parse/lex/lexer.go): the input with carriage returns removed, a one-character
 * cursor over it, and the stopping points of the consuming helpers.
 */
module Chars {

  /** The input as the reader sees it: every '\r' is dropped. */
  function Strip(s: seq<char>): (r: seq<char>)
    ensures '\r' !in r
    ensures |r| <= |s|
  {
    if s == [] then []
    else (if s[0] == '\r' then [] else [s[0]]) + Strip(s[1..])
  }

  lemma StripCons(s: seq<char>, i: nat)
    requires i < |s|
    ensures Strip(s[i..]) == (if s[i] == '\r' then [] else [s[i]]) + Strip(s[i + 1..])
  {
    assert s[i..][1..] == s[i + 1..];
  }

  /** The `goto again` of Next: read over carriage returns from position p. */
  method SkipCarriageReturns(s: seq<char>, p: nat) returns (q: nat)
    requires p <= |s|
    ensures p <= q <= |s| && (q < |s| ==> s[q] != '\r')
    ensures Strip(s[q..]) == Strip(s[p..])
  {
    q := p;
    while q < |s| && s[q] == '\r'
      invariant p <= q <= |s|
      invariant Strip(s[q..]) == Strip(s[p..])
    {
      StripCons(s, q);
      q := q + 1;
    }
  }

  /** Number of '\n' characters in s. */
  function Newlines(s: seq<char>): nat
  {
    if s == [] then 0 else (if s[0] == '\n' then 1 else 0) + Newlines(s[1..])
  }

  lemma NewlinesAppend(s: seq<char>, c: char)
    ensures Newlines(s + [c]) == Newlines(s) + (if c == '\n' then 1 else 0)
  {
    if s != [] {
      assert (s + [c])[1..] == s[1..] + [c];
      NewlinesAppend(s[1..], c);
    }
  }

  /**
   * The abstract state of a reader: `rest` is what is left of the input starting
   * with the current character (empty exactly at EOF), `c` is the C field (at EOF it
   * still holds the last character read) and `line` is the L field.
   */
  datatype Cursor = Cursor(rest: seq<char>, c: char, line: int) {
    ghost predicate Valid() {
      (rest != [] ==> rest[0] == c) && '\r' !in rest
    }

    predicate AtEnd() { rest == [] }

    /** The NC field: the lookahead character, or the zero rune once the source is exhausted. */
    function LookAhead(): char { if |rest| >= 2 then rest[1] else '\0' }
  }

  /** The reader state right after construction with the given first line number. */
  function Start(source: seq<char>, line: int): (r: Cursor)
    ensures r.Valid() && r.rest == Strip(source)
  {
    var s := Strip(source);
    if s == [] then Cursor([], '\0', line)
    else Cursor(s, s[0], line + (if s[0] == '\n' then 1 else 0))
  }

  /** One call of Next: at EOF nothing changes; on the last character only EOF is raised. */
  function Next(cur: Cursor): (r: Cursor)
    ensures cur.Valid() ==> r.Valid()
    ensures r.rest == if cur.rest == [] then [] else cur.rest[1..]
  {
    if cur.rest == [] then cur
    else if |cur.rest| == 1 then Cursor([], cur.c, cur.line)
    else Cursor(cur.rest[1..], cur.rest[1], cur.line + (if cur.rest[1] == '\n' then 1 else 0))
  }

  /** The line counter does not influence how Next moves. */
  lemma NextForgetsLine(cur: Cursor)
    ensures Next(cur.(line := 0)).(line := 0) == Next(cur).(line := 0)
  {
  }

  function Min(a: int, b: int): int { if a <= b then a else b }

  function Max0(a: int): nat { if a <= 0 then 0 else a }

  /**
   * The reader after consuming k characters, in closed form: the k-th remaining character
   * becomes current and the line grows by the newlines that entered the lookahead on the way.
   * Past the last character only EOF is raised: c and line stay those of the last character.
   */
  function Skip(cur: Cursor, k: nat): (r: Cursor)
    ensures r.rest == cur.rest[Min(k, |cur.rest|)..]
    ensures cur.Valid() ==> r.Valid()
  {
    if k == 0 || cur.rest == [] then cur
    else if k < |cur.rest| then Cursor(cur.rest[k..], cur.rest[k], cur.line + Newlines(cur.rest[1..k + 1]))
    else Cursor([], cur.rest[|cur.rest| - 1], cur.line + Newlines(cur.rest[1..]))
  }

  /** Skip for a reader that does not count lines: the line stays 0. */
  function SkipFlat(cur: Cursor, k: nat): (r: Cursor)
    ensures r.rest == cur.rest[Min(k, |cur.rest|)..] && r.line == 0
  {
    if k == 0 || cur.rest == [] then cur.(line := 0)
    else if k < |cur.rest| then Cursor(cur.rest[k..], cur.rest[k], 0)
    else Cursor([], cur.rest[|cur.rest| - 1], 0)
  }

  lemma SkipFlatIsSkip(cur: Cursor, k: nat)
    ensures SkipFlat(cur, k) == Skip(cur, k).(line := 0)
  {
  }

  lemma SkipFlatNext(cur: Cursor, k: nat)
    requires cur.Valid()
    ensures SkipFlat(cur, k + 1) == Next(SkipFlat(cur, k)).(line := 0)
  {
  }

  /** Skip is k calls of Next: one more character is one more Next. */
  lemma SkipNext(cur: Cursor, k: nat)
    requires cur.Valid()
    ensures Skip(cur, k + 1) == Next(Skip(cur, k))
  {
    var s := cur.rest;
    if s != [] && k + 1 < |s| {
      assert s[1..k + 2] == s[1..k + 1] + [s[k + 1]];
      NewlinesAppend(s[1..k + 1], s[k + 1]);
      if k == 0 {
        assert s[1..1] == [];
      }
    } else if s != [] && k + 1 == |s| {
      assert s[1..k + 1] == s[1..];
      if k == 0 {
        assert s[1..] == [];
      }
    }
  }

  /** One Next is a Skip of one character. */
  lemma NextSkip(cur: Cursor)
    requires cur.Valid()
    ensures Next(cur) == Skip(cur, 1)
  {
    SkipNext(cur, 0);
  }

  /**
   * SkipNext at a position named p: stating it without the term Skip(cur, k + 1) keeps the
   * solver from unfolding Skip at both k and k + 1.
   */
  lemma NextAt(cur: Cursor, k: nat, p: nat)
    requires cur.Valid() && p == k + 1
    ensures Next(Skip(cur, k)) == Skip(cur, p)
  {
    SkipNext(cur, k);
  }

  lemma {:induction false} NewlinesConcat(x: seq<char>, y: seq<char>)
    ensures Newlines(x + y) == Newlines(x) + Newlines(y)
  {
    if x != [] {
      assert (x + y)[1..] == x[1..] + y;
      NewlinesConcat(x[1..], y);
    } else {
      assert x + y == y;
    }
  }

  lemma SkipSkipInside(cur: Cursor, a: nat, b: nat)
    requires cur.Valid() && 0 < a && 0 < b && a + b < |cur.rest|
    ensures Skip(Skip(cur, a), b) == Skip(cur, a + b)
  {
    var s := cur.rest;
    var mid := Skip(cur, a);
    assert mid == Cursor(s[a..], s[a], cur.line + Newlines(s[1..a + 1]));
    assert s[a..][1..b + 1] == s[a + 1..a + b + 1];
    assert s[1..a + b + 1] == s[1..a + 1] + s[a + 1..a + b + 1];
    NewlinesConcat(s[1..a + 1], s[a + 1..a + b + 1]);
    assert s[a..][b..] == s[a + b..];
  }

  lemma SkipSkipPast(cur: Cursor, a: nat, b: nat)
    requires cur.Valid() && 0 < a < |cur.rest| && a + b >= |cur.rest|
    ensures Skip(Skip(cur, a), b) == Skip(cur, a + b)
  {
    var s := cur.rest;
    var mid := Skip(cur, a);
    assert mid == Cursor(s[a..], s[a], cur.line + Newlines(s[1..a + 1]));
    assert s[a..][1..] == s[a + 1..];
    assert s[1..] == s[1..a + 1] + s[a + 1..];
    NewlinesConcat(s[1..a + 1], s[a + 1..]);
  }

  /** Skipping a characters and then b is skipping a + b. */
  lemma SkipSkip(cur: Cursor, a: nat, b: nat)
    requires cur.Valid()
    ensures Skip(Skip(cur, a), b) == Skip(cur, a + b)
  {
    if a == 0 || cur.rest == [] || a >= |cur.rest| || b == 0 {
    } else if a + b < |cur.rest| {
      SkipSkipInside(cur, a, b);
    } else {
      SkipSkipPast(cur, a, b);
    }
  }

  /** Length of the longest prefix of s whose characters are all in chars. */
  function SpanIn(s: seq<char>, chars: seq<char>): (k: nat)
    ensures k <= |s|
    ensures forall i :: 0 <= i < k ==> s[i] in chars
    ensures k < |s| ==> s[k] !in chars
  {
    if s == [] || s[0] !in chars then 0 else 1 + SpanIn(s[1..], chars)
  }

  /** Length of the longest prefix of s none of whose characters is in chars. */
  function SpanNotIn(s: seq<char>, chars: seq<char>): (k: nat)
    ensures k <= |s|
    ensures forall i :: 0 <= i < k ==> s[i] !in chars
    ensures k < |s| ==> s[k] in chars
  {
    if s == [] || s[0] in chars then 0 else 1 + SpanNotIn(s[1..], chars)
  }

  /** A scan over s that has consumed j characters and sees s[j] continue the span. */
  lemma SpanInMore(s: seq<char>, chars: seq<char>, j: nat)
    requires j <= SpanIn(s, chars) && j < |s| && s[j] in chars
    ensures j < SpanIn(s, chars)
  {
  }

  /** A scan that stops at j ends the span. */
  lemma SpanInStop(s: seq<char>, chars: seq<char>, j: nat)
    requires j <= SpanIn(s, chars) && (j >= |s| || s[j] !in chars)
    ensures j == SpanIn(s, chars)
  {
  }

  lemma SpanNotInMore(s: seq<char>, chars: seq<char>, j: nat)
    requires j <= SpanNotIn(s, chars) && j < |s| && s[j] !in chars
    ensures j < SpanNotIn(s, chars)
  {
  }

  lemma SpanNotInStop(s: seq<char>, chars: seq<char>, j: nat)
    requires j <= SpanNotIn(s, chars) && (j >= |s| || s[j] in chars)
    ensures j == SpanNotIn(s, chars)
  {
  }

  /** A prefix that avoids chars and stops on one of them (or at the end) is the whole span. */
  lemma SpanNotInAt(s: seq<char>, chars: seq<char>, k: nat)
    requires k <= |s| && (forall i :: 0 <= i < k ==> s[i] !in chars) && (k == |s| || s[k] in chars)
    ensures SpanNotIn(s, chars) == k
  {
  }

  /** Appending the next character of s to a buffer holding buf and a prefix of s. */
  lemma PrefixSnoc(buf: seq<char>, s: seq<char>, j: nat)
    requires j < |s|
    ensures buf + s[..j] + [s[j]] == buf + s[..j + 1]
  {
    assert s[..j + 1] == s[..j] + [s[j]];
  }

  /** The span of chars that starts at position k of s, stated on s itself. */
  lemma SpanInFrom(s: seq<char>, chars: seq<char>, k: nat)
    requires k <= |s|
    ensures k + SpanIn(s[k..], chars) <= |s|
    ensures forall i :: k <= i < k + SpanIn(s[k..], chars) ==> s[i] in chars
  {
    var b := SpanIn(s[k..], chars);
    forall i | k <= i < k + b ensures s[i] in chars {
      assert s[i] == s[k..][i - k];
    }
  }

  /** The run of characters outside chars that starts at position k of s, stated on s itself. */
  lemma SpanNotInFrom(s: seq<char>, chars: seq<char>, k: nat)
    requires k <= |s|
    ensures k + SpanNotIn(s[k..], chars) <= |s|
    ensures forall i :: k <= i < k + SpanNotIn(s[k..], chars) ==> s[i] !in chars
    ensures k + SpanNotIn(s[k..], chars) < |s| ==> s[k + SpanNotIn(s[k..], chars)] in chars
  {
    var b := SpanNotIn(s[k..], chars);
    forall i | k <= i < k + b ensures s[i] !in chars {
      assert s[i] == s[k..][i - k];
    }
    if k + b < |s| {
      assert s[k + b] == s[k..][b];
    }
  }

  /** Dropping k characters of the run outside chars shortens it by k. */
  lemma SpanNotInDrop(s: seq<char>, chars: seq<char>, k: nat)
    requires k <= SpanNotIn(s, chars)
    ensures SpanNotIn(s[k..], chars) == SpanNotIn(s, chars) - k
  {
    SpanNotInFrom(s, chars, k);
    SpanNotInAt(s, chars, k + SpanNotIn(s[k..], chars));
  }

  /** Appending s[j] and then s[j + 1..q] to a buffer appends s[j..q]. */
  lemma AppendCons(buf: seq<char>, s: seq<char>, j: nat, q: nat)
    requires j < q <= |s|
    ensures buf + [s[j]] + s[j + 1..q] == buf + s[j..q]
  {
    assert s[j..q] == [s[j]] + s[j + 1..q];
  }

  /** The state after Eat(chars). */
  function EatSpec(cur: Cursor, chars: seq<char>): Cursor
  {
    Skip(cur, SpanIn(cur.rest, chars))
  }

  /** Eat from the reader p characters on. */
  lemma EatFrom(cur: Cursor, p: nat, chars: seq<char>)
    requires cur.Valid() && p <= |cur.rest|
    ensures EatSpec(Skip(cur, p), chars) == Skip(cur, p + SpanIn(cur.rest[p..], chars))
  {
    var x := Skip(cur, p);
    assert x.rest == cur.rest[p..];
    SkipSkip(cur, p, SpanIn(cur.rest[p..], chars));
  }

  /** Eating the same characters twice eats nothing the second time. */
  lemma EatEat(cur: Cursor, chars: seq<char>)
    requires cur.Valid()
    ensures EatSpec(EatSpec(cur, chars), chars) == EatSpec(cur, chars)
  {
    var e := EatSpec(cur, chars);
    assert e.rest == cur.rest[SpanIn(cur.rest, chars)..];
    assert SpanIn(e.rest, chars) == 0;
  }

  /** The state after EatUntil(chars) (also the stopping point of ReadUntil). */
  function EatUntilSpec(cur: Cursor, chars: seq<char>): Cursor
  {
    Skip(cur, SpanNotIn(cur.rest, chars))
  }

  /** Where a scan for chars that stopped at j leaves the reader, and what it read. */
  lemma EatUntilExit(cur: Cursor, chars: seq<char>, j: nat)
    requires j <= SpanNotIn(cur.rest, chars) && (j >= |cur.rest| || cur.rest[j] in chars)
    ensures j == SpanNotIn(cur.rest, chars) && EatUntilSpec(cur, chars) == Skip(cur, j)
  {
    SpanNotInStop(cur.rest, chars, j);
  }

  /** At the end of the input EatUntil and Next leave the reader state as it is. */
  lemma EatUntilAtEnd(cur: Cursor, chars: seq<char>)
    requires cur.rest == []
    ensures EatUntilSpec(cur, chars) == cur && Next(cur) == cur
  {
  }

  /** How many characters ReadMatchLimit(chars, buf, limit) consumes. */
  function LimitCount(s: seq<char>, chars: seq<char>, limit: int): (k: nat)
    ensures k <= |s|
    ensures k as int <= limit || k == 0
  {
    if limit <= 0 then 0 else Min(SpanIn(s, chars), limit)
  }

  /** The result flag of ReadMatchLimit: the limit was reached and the last read did not hit EOF. */
  function LimitHit(s: seq<char>, chars: seq<char>, limit: int): bool
  {
    var k := LimitCount(s, chars, limit);
    k as int == limit && (k == 0 || k < |s|)
  }

  /** Where a ReadMatchLimit scan that has read i characters stops, and what its flag is. */
  lemma LimitStop(s: seq<char>, chars: seq<char>, limit: int, i: nat)
    requires i <= SpanIn(s, chars) && i <= Max0(limit)
    requires i as int >= limit || i >= |s| || s[i] !in chars
    ensures LimitCount(s, chars, limit) == i
    ensures LimitHit(s, chars, limit) == (i as int == limit && (i == 0 || i < |s|))
  {
    if i as int < limit && i < |s| {
      SpanInStop(s, chars, i);
    }
  }

  /** LimitStop stated on the reader state, for a reader that does not count lines. */
  lemma LimitExit(cur: Cursor, chars: seq<char>, limit: int, i: nat)
    requires i <= SpanIn(cur.rest, chars) && i <= Max0(limit)
    requires i as int >= limit || i >= |cur.rest| || cur.rest[i] !in chars
    ensures LimitCount(cur.rest, chars, limit) == i
    ensures LimitHit(cur.rest, chars, limit) == (i as int == limit && (i == 0 || i < |cur.rest|))
    ensures Skip(cur, LimitCount(cur.rest, chars, limit)).(line := 0) == SkipFlat(cur, i)
  {
    LimitStop(cur.rest, chars, limit, i);
    SkipFlatIsSkip(cur, i);
  }
}
