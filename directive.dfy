/**
 * Directive.String and Directive.Compare (directive.go): the text form of a directive and the
 * equality the merge tool uses to recognise the same directive in two files.
 */
module Directives {
  import opened Ledger
  import Text

  /** The text of the indented lines: each as a tab, the line and a newline. */
  function LinesText(lines: seq<string>): string
  {
    if lines == [] then "" else "\t" + lines[0] + "\n" + LinesText(lines[1..])
  }

  /** What Directive.String writes: the keyword, a space, the argument, a newline, then the lines. */
  function DirectiveText(d: Directive): string
  {
    d.kind + " " + d.argument + "\n" + LinesText(d.lines)
  }

  /** The indented lines as they appear in the text. */
  function Tabbed(lines: seq<string>): (r: seq<string>)
    ensures |r| == |lines| && forall i :: 0 <= i < |lines| ==> r[i] == "\t" + lines[i]
  {
    seq(|lines|, i requires 0 <= i < |lines| => "\t" + lines[i])
  }

  lemma {:induction false} LinesTextSnoc(lines: seq<string>, line: string)
    ensures LinesText(lines + [line]) == LinesText(lines) + ("\t" + line + "\n")
  {
    if lines != [] {
      assert (lines + [line])[1..] == lines[1..] + [line];
      LinesTextSnoc(lines[1..], line);
    }
  }

  /** Directive.String: the buffer-building loop over Lines. */
  method String(d: Directive) returns (s: string)
    ensures s == DirectiveText(d)
  {
    var head := d.kind + " " + d.argument + "\n";
    s := head;
    var i := 0;
    while i < |d.lines|
      invariant 0 <= i <= |d.lines|
      invariant s == head + LinesText(d.lines[..i])
    {
      LinesTextSnoc(d.lines[..i], d.lines[i]);
      assert d.lines[..i + 1] == d.lines[..i] + [d.lines[i]];
      s := s + "\t" + d.lines[i] + "\n";
      i := i + 1;
    }
    assert d.lines[..|d.lines|] == d.lines;
  }

  predicate NoNewline(s: string) { '\n' !in s }

  /** Splitting at the first separator of x + [sep] + y. */
  lemma {:induction false} SplitCons(x: string, sep: char, y: string)
    requires sep !in x
    ensures Text.Split(x + [sep] + y, sep) == [x] + Text.Split(y, sep)
  {
    if x == [] {
      assert x + [sep] + y == [sep] + y;
    } else {
      var s := x + [sep] + y;
      assert s[1..] == x[1..] + [sep] + y;
      SplitCons(x[1..], sep, y);
      assert [x[0]] + x[1..] == x;
    }
  }

  lemma {:induction false} SplitLinesText(lines: seq<string>)
    requires forall i :: 0 <= i < |lines| ==> NoNewline(lines[i])
    ensures Text.Split(LinesText(lines), '\n') == Tabbed(lines) + [""]
  {
    if lines != [] {
      SplitLinesText(lines[1..]);
      assert "\t" + lines[0] + "\n" + LinesText(lines[1..]) == ("\t" + lines[0]) + ['\n'] + LinesText(lines[1..]);
      SplitCons("\t" + lines[0], '\n', LinesText(lines[1..]));
      assert Tabbed(lines) == ["\t" + lines[0]] + Tabbed(lines[1..]);
    }
  }

  /**
   * The text of a directive reads back line by line: the header, then each indented line in
   * order, then nothing after the final newline; one segment per input line.
   */
  lemma DirectiveTextLines(d: Directive)
    requires NoNewline(d.kind) && NoNewline(d.argument)
    requires forall i :: 0 <= i < |d.lines| ==> NoNewline(d.lines[i])
    ensures Text.Split(DirectiveText(d), '\n') == [d.kind + " " + d.argument] + Tabbed(d.lines) + [""]
    ensures |Text.Split(DirectiveText(d), '\n')| == 2 + |d.lines|
  {
    var head := d.kind + " " + d.argument;
    assert DirectiveText(d) == head + ['\n'] + LinesText(d.lines);
    SplitCons(head, '\n', LinesText(d.lines));
    SplitLinesText(d.lines);
  }

  /** The loop of Compare over the lines from index i on. */
  function LinesMatch(a: seq<string>, b: seq<string>, i: nat): (r: bool)
    requires |a| == |b| && i <= |a|
    ensures r <==> a[i..] == b[i..]
    decreases |a| - i
  {
    if i == |a| then true
    else if a[i] != b[i] then
      assert a[i..][0] != b[i..][0];
      false
    else
      var r := LinesMatch(a, b, i + 1);
      assert a[i..] == [a[i]] + a[i + 1..] && b[i..] == [b[i]] + b[i + 1..];
      r
  }

  /** Directive.Compare: same keyword, argument and lines. */
  function Compare(d: Directive, d2: Directive): (r: bool)
    ensures r <==> d.kind == d2.kind && d.argument == d2.argument && d.lines == d2.lines
  {
    if !(d.kind == d2.kind && d.argument == d2.argument && |d.lines| == |d2.lines|) then false
    else
      assert d.lines[0..] == d.lines && d2.lines[0..] == d2.lines;
      LinesMatch(d.lines, d2.lines, 0)
  }

  /** Compare is an equivalence, and it ignores where the directive stands in its file. */
  lemma CompareEquivalence(a: Directive, b: Directive, c: Directive, foundBefore: int, location: bv64)
    ensures Compare(a, a)
    ensures Compare(a, b) == Compare(b, a)
    ensures Compare(a, b) && Compare(b, c) ==> Compare(a, c)
    ensures Compare(a.(foundBefore := foundBefore, location := location), b) == Compare(a, b)
  {
  }

  /** Directives that Compare equal have the same text. */
  lemma CompareSameText(a: Directive, b: Directive)
    requires Compare(a, b)
    ensures DirectiveText(a) == DirectiveText(b)
  {
  }
}
