/**
 * The handful of Python `str` operations the converter relies on, written out
 * over `seq<char>`: whitespace stripping, stripping of a character set,
 * splitting on a single character, joining, prefix tests and counting.
 *
 * Whitespace is the ASCII set space, tab, line feed, carriage return,
 * vertical tab and form feed; line splitting recognises only line feed.
 */
module Strings {

  /** The characters `str.strip()` and the regex class `\s` remove or match here. */
  const Whitespace: set<char> := {' ', '\t', '\n', '\r', '\U{B}', '\U{C}'}

  predicate IsDigit(c: char) {
    '0' <= c <= '9'
  }

  predicate StartsWith(s: string, prefix: string) {
    |prefix| <= |s| && s[..|prefix|] == prefix
  }

  /** `s.count(c)` for a one-character argument. */
  function CountChar(s: string, c: char): (n: nat)
    ensures n <= |s|
    ensures n == 0 <==> c !in s
  {
    multiset(s)[c]
  }

  // ---------------------------------------------------------------------------
  // Stripping

  /** Length of the longest prefix of `s` made of characters of `cs`. */
  function LeadingCount(s: string, cs: set<char>): (k: nat)
    ensures k <= |s|
    ensures forall i :: 0 <= i < k ==> s[i] in cs
    ensures k < |s| ==> s[k] !in cs
  {
    if s == [] || s[0] !in cs then 0 else 1 + LeadingCount(s[1..], cs)
  }

  /** Length of the longest suffix of `s` made of characters of `cs`. */
  function TrailingCount(s: string, cs: set<char>): (k: nat)
    ensures k <= |s|
    ensures forall i :: |s| - k <= i < |s| ==> s[i] in cs
    ensures k < |s| ==> s[|s| - 1 - k] !in cs
  {
    if s == [] || s[|s| - 1] !in cs then 0 else 1 + TrailingCount(s[..|s| - 1], cs)
  }

  /** `s.lstrip(chars)`: drop the leading run of characters of `cs`. */
  function LStripChars(s: string, cs: set<char>): (r: string)
    ensures |r| <= |s| && r == s[|s| - |r|..]
    ensures forall i :: 0 <= i < |s| - |r| ==> s[i] in cs
    ensures r != [] ==> r[0] !in cs
  {
    s[LeadingCount(s, cs)..]
  }

  /** `s.rstrip(chars)`: drop the trailing run of characters of `cs`. */
  function RStripChars(s: string, cs: set<char>): (r: string)
    ensures |r| <= |s| && r == s[..|r|]
    ensures forall i :: |r| <= i < |s| ==> s[i] in cs
    ensures r != [] ==> r[|r| - 1] !in cs
  {
    s[..|s| - TrailingCount(s, cs)]
  }

  function LStrip(s: string): string {
    LStripChars(s, Whitespace)
  }

  function Strip(s: string): string {
    RStripChars(LStripChars(s, Whitespace), Whitespace)
  }

  /** The stripped string is a slice of the original that neither begins nor ends with whitespace. */
  lemma StripSlice(s: string)
    ensures exists a, b :: 0 <= a <= b <= |s| && Strip(s) == s[a..b]
    ensures Strip(s) != [] ==> Strip(s)[0] !in Whitespace && Strip(s)[|Strip(s)| - 1] !in Whitespace
  {
    var l := LStripChars(s, Whitespace);
    var a := |s| - |l|;
    var r := RStripChars(l, Whitespace);
    assert s[a..a + |r|] == r;
    if r != [] {
      assert r[0] == l[0];
    }
  }

  /** `line.strip()` is empty exactly for the lines a blank-line test rejects. */
  lemma StripEmptyIff(s: string)
    ensures Strip(s) == [] <==> forall i :: 0 <= i < |s| ==> s[i] in Whitespace
  {
    var l := LStripChars(s, Whitespace);
    if Strip(s) == [] {
      assert l == [];
    } else {
      var r := Strip(s);
      assert r[0] == l[0] == s[|s| - |l|];
    }
  }

  lemma StripIdempotent(s: string)
    ensures Strip(Strip(s)) == Strip(s)
  {
    var t := Strip(s);
    StripSlice(s);
    if t != [] {
      assert LeadingCount(t, Whitespace) == 0;
      assert LStripChars(t, Whitespace) == t;
      assert TrailingCount(t, Whitespace) == 0;
    }
  }

  /** Stripping never introduces a character. */
  lemma StripKeepsAbsent(s: string, c: char)
    requires c !in s
    ensures c !in Strip(s)
  {
    StripSlice(s);
  }

  // ---------------------------------------------------------------------------
  // Splitting and joining on one character

  /** `s.split(c)` for a one-character separator: every piece, empty ones included. */
  function Split(s: string, c: char): (parts: seq<string>)
    ensures |parts| >= 1
    ensures forall k :: 0 <= k < |parts| ==> c !in parts[k]
  {
    if s == [] then [""]
    else if s[0] == c then [""] + Split(s[1..], c)
    else
      var rest := Split(s[1..], c);
      [[s[0]] + rest[0]] + rest[1..]
  }

  /** `sep.join(parts)`. */
  function Join(parts: seq<string>, sep: string): string {
    if parts == [] then ""
    else if |parts| == 1 then parts[0]
    else parts[0] + sep + Join(parts[1..], sep)
  }

  /** `s.splitlines()` when `\n` is the only line separator: a trailing newline ends the last line. */
  function SplitLines(s: string): (lines: seq<string>)
    ensures s == [] ==> lines == []
    ensures forall k :: 0 <= k < |lines| ==> '\n' !in lines[k]
  {
    if s == [] then []
    else
      var parts := Split(s, '\n');
      if parts[|parts| - 1] == "" then parts[..|parts| - 1] else parts
  }

  /** `s.replace(a, b)` for one-character arguments. */
  function ReplaceChar(s: string, a: char, b: char): (r: string)
    ensures |r| == |s|
  {
    if s == [] then [] else [if s[0] == a then b else s[0]] + ReplaceChar(s[1..], a, b)
  }

  /** Each character equal to `a` becomes `b`; every other character stays where it is. */
  lemma {:induction false} ReplaceCharAt(s: string, a: char, b: char, i: nat)
    requires i < |s|
    ensures ReplaceChar(s, a, b)[i] == if s[i] == a then b else s[i]
  {
    if i > 0 {
      ReplaceCharAt(s[1..], a, b, i - 1);
    }
  }

  lemma {:induction false} JoinSplit(s: string, c: char)
    ensures Join(Split(s, c), [c]) == s
  {
    if s == [] {
    } else if s[0] == c {
      JoinSplit(s[1..], c);
      var rest := Split(s[1..], c);
      assert Split(s, c) == [""] + rest;
      assert ([""] + rest)[1..] == rest;
    } else {
      JoinSplit(s[1..], c);
      var rest := Split(s[1..], c);
      var parts := [[s[0]] + rest[0]] + rest[1..];
      assert Split(s, c) == parts;
      if |rest| == 1 {
        assert Join(parts, [c]) == [s[0]] + rest[0];
      } else {
        assert parts[1..] == rest[1..];
        assert Join(parts, [c]) == [s[0]] + rest[0] + [c] + Join(rest[1..], [c]);
        assert Join(rest, [c]) == rest[0] + [c] + Join(rest[1..], [c]);
      }
    }
  }

  /** The prefix of `s` up to `c` is the first piece of the split. */
  lemma {:induction false} SplitPrefix(a: string, b: string, c: char)
    requires c !in a
    ensures Split(a + b, c) == [a + Split(b, c)[0]] + Split(b, c)[1..]
  {
    if a == [] {
      assert a + b == b;
      var p := Split(b, c);
      assert a + p[0] == p[0];
      assert p == [p[0]] + p[1..];
    } else {
      var p := Split(b, c);
      var rest := Split(a[1..] + b, c);
      assert rest == [a[1..] + p[0]] + p[1..] by {
        SplitPrefix(a[1..], b, c);
      }
      assert Split(a + b, c) == [[a[0]] + rest[0]] + rest[1..] by {
        assert (a + b)[1..] == a[1..] + b;
        assert (a + b)[0] == a[0] && a[0] != c;
      }
      assert [a[0]] + (a[1..] + p[0]) == a + p[0];
    }
  }

  /** Splitting a joined list of separator-free pieces gives the pieces back. */
  lemma {:induction false} SplitJoin(parts: seq<string>, c: char)
    requires |parts| >= 1
    requires forall k :: 0 <= k < |parts| ==> c !in parts[k]
    ensures Split(Join(parts, [c]), c) == parts
  {
    if |parts| == 1 {
      SplitPrefix(parts[0], "", c);
      assert parts[0] + "" == parts[0];
    } else {
      var tail := Join(parts[1..], [c]);
      SplitJoin(parts[1..], c);
      assert Join(parts, [c]) == parts[0] + ([c] + tail);
      SplitPrefix(parts[0], [c] + tail, c);
      assert ([c] + tail)[1..] == tail;
      assert Split([c] + tail, c) == [""] + parts[1..];
      assert parts[0] + "" == parts[0];
    }
  }

  lemma {:induction false} JoinAppend(xs: seq<string>, ys: seq<string>, sep: string)
    requires xs != [] && ys != []
    ensures Join(xs + ys, sep) == Join(xs, sep) + sep + Join(ys, sep)
  {
    if |xs| == 1 {
      assert (xs + ys)[1..] == ys;
    } else {
      assert (xs + ys)[1..] == xs[1..] + ys;
      JoinAppend(xs[1..], ys, sep);
    }
  }

  /** Splitting around one separator splits each side independently. */
  lemma SplitConcat(a: string, b: string, c: char)
    ensures Split(a + [c] + b, c) == Split(a, c) + Split(b, c)
  {
    var pa, pb := Split(a, c), Split(b, c);
    JoinSplit(a, c);
    JoinSplit(b, c);
    JoinAppend(pa, pb, [c]);
    forall k | 0 <= k < |pa + pb| ensures c !in (pa + pb)[k] {
      if k >= |pa| {
        assert (pa + pb)[k] == pb[k - |pa|];
      }
    }
    SplitJoin(pa + pb, c);
  }

  // ---------------------------------------------------------------------------
  // First characters and single lines

  /** A string that does not begin with whitespace keeps its first character through `strip`. */
  lemma StripFirst(s: string)
    requires s != [] && s[0] !in Whitespace
    ensures LStrip(s) == s && Strip(s) != [] && Strip(s)[0] == s[0]
  {
    assert LeadingCount(s, Whitespace) == 0;
  }

  /** A string whose ends are not whitespace is its own stripped form. */
  lemma StripUnchanged(s: string)
    requires s != [] && s[0] !in Whitespace && s[|s| - 1] !in Whitespace
    ensures Strip(s) == s
  {
    StripFirst(s);
    assert TrailingCount(s, Whitespace) == 0;
  }

  lemma SplitFirstChar(s: string, c: char)
    requires s != [] && s[0] != c
    ensures Split(s, c)[0] != [] && Split(s, c)[0][0] == s[0]
  {
  }

  lemma SplitLinesFirstChar(s: string)
    requires s != [] && s[0] != '\n'
    ensures SplitLines(s) != [] && SplitLines(s)[0] != [] && SplitLines(s)[0][0] == s[0]
  {
    SplitFirstChar(s, '\n');
  }

  /** Without a line feed there is at most one line. */
  lemma OneLine(s: string)
    requires '\n' !in s
    ensures |SplitLines(s)| <= 1
  {
    if s != [] {
      SplitJoin([s], '\n');
    }
  }

  /** A string without the separator is a single piece. */
  lemma SplitWithout(s: string, c: char)
    requires c !in s
    ensures Split(s, c) == [s]
  {
    SplitJoin([s], c);
  }

  /** Only the empty string has no lines. */
  lemma SplitLinesNonEmpty(s: string)
    requires s != []
    ensures SplitLines(s) != []
  {
    var parts := Split(s, '\n');
    if |parts| == 1 {
      JoinSplit(s, '\n');
    }
  }

  /** Lines joined with line feeds split back into those lines, when the last is not empty. */
  lemma SplitLinesJoin(lines: seq<string>)
    requires lines != [] && lines[|lines| - 1] != ""
    requires forall k :: 0 <= k < |lines| ==> '\n' !in lines[k]
    ensures SplitLines(Join(lines, "\n")) == lines
  {
    var j := Join(lines, "\n");
    assert Split(j, '\n') == lines by {
      assert "\n" == ['\n'];
      SplitJoin(lines, '\n');
    }
    assert j != [] by {
      JoinNonEmpty(lines, "\n");
    }
    SplitLinesWhole(j);
  }

  lemma {:induction false} JoinNonEmpty(parts: seq<string>, sep: string)
    requires parts != [] && parts[|parts| - 1] != ""
    ensures Join(parts, sep) != ""
  {
    if |parts| > 1 {
      JoinNonEmpty(parts[1..], sep);
    }
  }

  /** When the text does not end with a line feed, its lines are all its pieces. */
  lemma SplitLinesWhole(s: string)
    requires s != [] && Split(s, '\n')[|Split(s, '\n')| - 1] != ""
    ensures SplitLines(s) == Split(s, '\n')
  {
  }

  /** A leading character of the stripped set is stripped. */
  lemma LStripCons(c: char, t: string, cs: set<char>)
    requires c in cs
    ensures LStripChars([c] + t, cs) == LStripChars(t, cs)
  {
    assert ([c] + t)[1..] == t;
  }

  /** Whitespace put in front of a string is stripped with the string's own. */
  lemma {:induction false} StripIndented(ind: string, t: string)
    requires forall i :: 0 <= i < |ind| ==> ind[i] in Whitespace
    ensures LStrip(ind + t) == LStrip(t) && Strip(ind + t) == Strip(t)
  {
    if ind == [] {
      assert ind + t == t;
    } else {
      assert ind + t == [ind[0]] + (ind[1..] + t);
      LStripCons(ind[0], ind[1..] + t, Whitespace);
      StripIndented(ind[1..], t);
    }
  }

  /** Nothing is stripped in front of a character outside the set. */
  lemma LStripStops(t: string, cs: set<char>)
    requires t != [] && t[0] !in cs
    ensures LStripChars(t, cs) == t
  {
  }
}
