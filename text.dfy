/**
 * The few string operations of Go's strings package that the library relies on:
 * TrimSpace, HasPrefix, Contains, ContainsAny, Split, string comparison and sorting, and
 * the right padding of fmt's %-Ns verb. Strings are sequences of code points.
 */
module Text {

  /** unicode.IsSpace: the Latin-1 blanks and the Unicode space separators. */
  predicate IsSpace(c: char)
  {
    || c == '\t' || c == '\n' || c == '\U{000B}' || c == '\U{000C}' || c == '\r' || c == ' '
    || c == '\U{0085}' || c == '\U{00A0}' || c == '\U{1680}'
    || ('\U{2000}' <= c <= '\U{200A}')
    || c == '\U{2028}' || c == '\U{2029}' || c == '\U{202F}' || c == '\U{205F}' || c == '\U{3000}'
  }

  predicate AllSpace(s: string) { forall i :: 0 <= i < |s| ==> IsSpace(s[i]) }

  /** Number of leading white-space characters of s. */
  function LeadingSpace(s: string): (k: nat)
    ensures k <= |s| && AllSpace(s[..k])
    ensures k < |s| ==> !IsSpace(s[k])
  {
    if s == [] || !IsSpace(s[0]) then 0
    else
      var k := 1 + LeadingSpace(s[1..]);
      assert s[..k] == [s[0]] + s[1..][..k - 1];
      k
  }

  /** Number of trailing white-space characters of s. */
  function TrailingSpace(s: string): (k: nat)
    ensures k <= |s| && AllSpace(s[|s| - k..])
    ensures k < |s| ==> !IsSpace(s[|s| - k - 1])
    ensures s != [] && !IsSpace(s[0]) ==> k < |s|
  {
    if s == [] || !IsSpace(s[|s| - 1]) then 0
    else
      var k := 1 + TrailingSpace(s[..|s| - 1]);
      assert s[|s| - k..] == s[..|s| - 1][|s| - k..] + [s[|s| - 1]];
      k
  }

  /** s without its trailing white space. */
  function TrimTrailingSpace(t: string): (r: string)
    ensures r == t[..|t| - TrailingSpace(t)]
  {
    t[..|t| - TrailingSpace(t)]
  }

  /**
   * strings.TrimSpace: s without its leading and trailing white space. The result is the part
   * of s between a run of spaces at the front and a run of spaces at the back, and it neither
   * starts nor ends with a space.
   */
  function TrimSpace(s: string): (r: string)
    ensures exists a, b :: 0 <= a <= b <= |s| && r == s[a..b] && AllSpace(s[..a]) && AllSpace(s[b..])
    ensures r != [] ==> !IsSpace(r[0]) && !IsSpace(r[|r| - 1])
    ensures r == [] <==> AllSpace(s)
  {
    var a := LeadingSpace(s);
    if a == |s| then
      assert s[a..a] == [] && s[..a] == s;
      TrimTrailingSpace(s[a..])
    else
      var t := s[a..];
      var n := TrailingSpace(t);
      assert s[a + |t| - n..] == t[|t| - n..];
      assert !IsSpace(s[a]) && t[0] == s[a];
      assert t[..|t| - n] == s[a..a + |t| - n];
      TrimTrailingSpace(t)
  }

  /** A string made only of non-space characters is its own trim. */
  lemma TrimSpaceNoSpace(s: string)
    requires forall i :: 0 <= i < |s| ==> !IsSpace(s[i])
    ensures TrimSpace(s) == s
  {
    if s != [] {
      assert LeadingSpace(s) == 0;
      assert TrailingSpace(s) == 0;
    }
  }

  lemma {:induction false} LeadingSpacePrefix(x: string, y: string)
    requires AllSpace(x)
    ensures LeadingSpace(x + y) == |x| + LeadingSpace(y)
  {
    if x != [] {
      assert (x + y)[1..] == x[1..] + y;
      LeadingSpacePrefix(x[1..], y);
    } else {
      assert x + y == y;
    }
  }

  /** White space in front of a string does not change its trim. */
  lemma TrimSpaceSpacePrefix(x: string, y: string)
    requires AllSpace(x)
    ensures TrimSpace(x + y) == TrimSpace(y)
  {
    var xy := x + y;
    assert xy[LeadingSpace(xy)..] == y[LeadingSpace(y)..] by {
      LeadingSpacePrefix(x, y);
      assert xy[|x| + LeadingSpace(y)..] == y[LeadingSpace(y)..];
    }
    TrimSpaceLeading(xy);
    TrimSpaceLeading(y);
  }

  /** TrimSpace is the trailing trim of what follows the leading white space. */
  lemma TrimSpaceLeading(s: string)
    ensures TrimSpace(s) == TrimTrailingSpace(s[LeadingSpace(s)..])
  {
  }

  predicate HasPrefix(s: string, p: string) { |p| <= |s| && s[..|p|] == p }

  /** strings.ContainsAny. */
  predicate ContainsAny(s: string, chars: string)
  {
    exists i :: 0 <= i < |s| && s[i] in chars
  }

  /** strings.Contains(s, "  "), computed by a scan. */
  function HasDoubleSpace(s: string): (r: bool)
    ensures r <==> exists i :: 0 <= i < |s| - 1 && s[i] == ' ' && s[i + 1] == ' '
  {
    if |s| < 2 then false
    else if s[0] == ' ' && s[1] == ' ' then true
    else
      var r := HasDoubleSpace(s[1..]);
      assert forall i :: 1 <= i < |s| ==> s[i] == s[1..][i - 1];
      r
  }

  /** strings.Split with a one-character separator: the pieces between separators, in order. */
  function Split(s: string, sep: char): (r: seq<string>)
    ensures |r| >= 1
    ensures forall i :: 0 <= i < |r| ==> sep !in r[i]
    ensures Join(r, sep) == s
  {
    if s == [] then [[]]
    else
      var rest := Split(s[1..], sep);
      if s[0] == sep then
        assert s == [sep] + s[1..];
        [[]] + rest
      else
        assert s == [s[0]] + s[1..];
        JoinFirst(rest, sep, s[0]);
        [[s[0]] + rest[0]] + rest[1..]
  }

  /** The inverse of Split: the pieces with a separator between each two consecutive ones. */
  function Join(parts: seq<string>, sep: char): string
  {
    if parts == [] then []
    else if |parts| == 1 then parts[0]
    else parts[0] + [sep] + Join(parts[1..], sep)
  }

  lemma JoinFirst(parts: seq<string>, sep: char, c: char)
    requires parts != []
    ensures Join([[c] + parts[0]] + parts[1..], sep) == [c] + Join(parts, sep)
  {
    var q := [[c] + parts[0]] + parts[1..];
    assert q[1..] == parts[1..];
  }

  /** Go's string comparison s < t: code point order, a proper prefix first. */
  predicate Less(s: string, t: string)
  {
    if s == [] then t != []
    else if t == [] then false
    else if s[0] != t[0] then s[0] < t[0]
    else Less(s[1..], t[1..])
  }

  lemma {:induction false} LessIrreflexive(s: string)
    ensures !Less(s, s)
  {
    if s != [] {
      LessIrreflexive(s[1..]);
    }
  }

  lemma {:induction false} LessTrichotomy(s: string, t: string)
    ensures s == t || Less(s, t) || Less(t, s)
  {
    if s != [] && t != [] && s[0] == t[0] {
      LessTrichotomy(s[1..], t[1..]);
      if s[1..] == t[1..] {
        assert s == [s[0]] + s[1..] && t == [t[0]] + t[1..];
      }
    }
  }

  lemma {:induction false} LessAsymmetric(s: string, t: string)
    requires Less(s, t)
    ensures !Less(t, s)
  {
    if s != [] && t != [] && s[0] == t[0] {
      LessAsymmetric(s[1..], t[1..]);
    }
  }

  lemma {:induction false} LessTransitive(s: string, t: string, u: string)
    requires Less(s, t) && Less(t, u)
    ensures Less(s, u)
  {
    if s != [] && t != [] && u != [] && s[0] == t[0] && t[0] == u[0] {
      LessTransitive(s[1..], t[1..], u[1..]);
    }
  }

  predicate Sorted(ss: seq<string>)
  {
    forall i, j :: 0 <= i < j < |ss| ==> Less(ss[i], ss[j])
  }

  /** t inserted into the strictly ascending list ss (t not already in it). */
  function Insert(t: string, ss: seq<string>): (r: seq<string>)
    requires Sorted(ss) && t !in ss
    ensures Sorted(r) && multiset(r) == multiset(ss) + multiset{t}
  {
    if ss == [] then [t]
    else if Less(t, ss[0]) then
      forall j | 0 < j < |ss| ensures Less(t, ss[j]) {
        LessTransitive(t, ss[0], ss[j]);
      }
      [t] + ss
    else
      LessTrichotomy(t, ss[0]);
      var r := Insert(t, ss[1..]);
      assert ss == [ss[0]] + ss[1..];
      assert forall x :: x in multiset(r) ==> x == t || x in ss[1..];
      forall j | 0 <= j < |r| ensures Less(ss[0], r[j]) {
        assert r[j] in multiset(r);
      }
      [ss[0]] + r
  }

  predicate Distinct(ss: seq<string>)
  {
    forall i, j :: 0 <= i < j < |ss| ==> ss[i] != ss[j]
  }

  /** sort.Strings on a list without duplicates (the keys of a map): ascending order. */
  function SortStrings(ss: seq<string>): (r: seq<string>)
    requires Distinct(ss)
    ensures Sorted(r) && multiset(r) == multiset(ss)
  {
    if ss == [] then []
    else
      assert ss == [ss[0]] + ss[1..];
      var rest := SortStrings(ss[1..]);
      assert ss[0] !in multiset(rest);
      Insert(ss[0], rest)
  }

  /** fmt's %-Ns: s followed by spaces up to width n (counted in code points). */
  function PadRight(s: string, n: nat): (r: string)
    ensures |r| == if |s| >= n then |s| else n
    ensures r[..|s|] == s
    ensures forall i :: |s| <= i < |r| ==> r[i] == ' '
  {
    if |s| >= n then s else s + seq(n - |s|, _ => ' ')
  }
}
