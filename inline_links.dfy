/**
 * Image and link extraction (`extract_markdown_images`, `extract_markdown_links`,
 * `split_nodes_images`, `split_nodes_links`).
 *
 * The two regular expressions are written out as matchers:
 *   image  `!\[([^\[\]]*)\]\(([^\(\)]*)\)`
 *   link   `(?<!!)\[([^\[\]]*)\]\(([^\(\)]*)\)`
 * Both groups exclude their own closing character, so at a given start
 * the match, if any, is unique; `finditer` then scans left to right and
 * resumes after each match.
 */
module InlineLinks {
  import opened Wrappers
  import opened TextNodes

  datatype Pattern = ImagePattern | LinkPattern

  /** A match `s[start..end]` with its two groups. */
  datatype Match = Match(start: nat, end: nat, text: string, url: string)

  function KindOf(p: Pattern): TextType {
    if p == ImagePattern then Image else Link
  }

  /** The source text a match with these groups covers. */
  function Markup(p: Pattern, text: string, url: string): string {
    Markdown(TextNode(text, KindOf(p), Some(url)))
  }

  /** `[text](url)`: what the bracket part of either pattern covers. */
  function Brackets(text: string, url: string): string {
    "[" + text + "](" + url + ")"
  }

  /** An image's markup is a `!` before the brackets; a link's is the brackets alone. */
  lemma MarkupShape(p: Pattern, text: string, url: string)
    ensures p == ImagePattern ==> Markup(p, text, url) == "!" + Brackets(text, url)
    ensures p == LinkPattern ==> Markup(p, text, url) == Brackets(text, url)
  {
  }

  predicate NoBrackets(s: string) {
    '[' !in s && ']' !in s
  }

  predicate NoParens(s: string) {
    '(' !in s && ')' !in s
  }

  /** The first index at or after `i` holding a character of `cs`, or `|s|`. */
  function ScanTo(s: string, i: nat, a: char, b: char): (k: nat)
    requires i <= |s|
    ensures i <= k <= |s|
    ensures forall j :: i <= j < k ==> s[j] != a && s[j] != b
    ensures k < |s| ==> s[k] == a || s[k] == b
    decreases |s| - i
  {
    if i == |s| || s[i] == a || s[i] == b then i else ScanTo(s, i + 1, a, b)
  }

  /** `\[([^\[\]]*)\]\(([^\(\)]*)\)` anchored at `i`; the match is reported as starting at `from`. */
  function BracketsAt(s: string, i: nat, from: nat): (r: Option<Match>)
    requires i <= |s|
    ensures r.Some? ==> r.value.start == from && i < r.value.end <= |s|
  {
    if i < |s| && s[i] == '[' then
      var j := ScanTo(s, i + 1, '[', ']');
      if j + 1 < |s| && s[j] == ']' && s[j + 1] == '(' then
        var k := ScanTo(s, j + 2, '(', ')');
        if k < |s| && s[k] == ')' then Some(Match(from, k + 1, s[i + 1..j], s[j + 2..k]))
        else None
      else None
    else None
  }

  /** Where the `[` of a pattern anchored at `i` must stand. */
  function BracketStart(p: Pattern, i: nat): nat {
    if p == ImagePattern then i + 1 else i
  }

  /** The part of a pattern before its `[`: the image's `!`, or the link's look-behind on the character before `i`. */
  predicate Anchored(p: Pattern, s: string, i: nat)
    requires i <= |s|
  {
    match p
    case ImagePattern => i < |s| && s[i] == '!'
    case LinkPattern => i == 0 || s[i - 1] != '!'
  }

  /** The pattern anchored at `i`. */
  function MatchAt(p: Pattern, s: string, i: nat): (r: Option<Match>)
    requires i <= |s|
    ensures r.Some? ==> r.value.start == i && i < r.value.end <= |s|
  {
    if Anchored(p, s, i) then BracketsAt(s, BracketStart(p, i), i) else None
  }

  lemma BracketsAtSound(s: string, i: nat, from: nat)
    requires i <= |s| && BracketsAt(s, i, from).Some?
    ensures var m := BracketsAt(s, i, from).value;
      s[i..m.end] == Brackets(m.text, m.url) && NoBrackets(m.text) && NoParens(m.url)
  {
    var m := BracketsAt(s, i, from).value;
    var j := i + 1 + |m.text|;
    var k := m.end - 1;
    assert s[i + 1..j] == m.text && s[j + 2..k] == m.url;
    BracketsShape(s, i, j, k);
    NoneBetween(s, i + 1, j, '[', ']');
    NoneBetween(s, j + 2, k, '(', ')');
  }

  /** The characters `[`, `](` and `)` at `i`, `j` and `k` delimit the bracket markup of what lies between. */
  lemma BracketsShape(s: string, i: nat, j: nat, k: nat)
    requires i < j && j + 1 < k < |s|
    requires s[i] == '[' && s[j] == ']' && s[j + 1] == '(' && s[k] == ')'
    ensures s[i..k + 1] == Brackets(s[i + 1..j], s[j + 2..k])
  {
    var text, url := s[i + 1..j], s[j + 2..k];
    assert s[j + 2..k + 1] == url + ")";
    assert s[j..k + 1] == "](" + (url + ")");
    assert s[i + 1..k + 1] == text + ("](" + (url + ")"));
    assert s[i..k + 1] == "[" + (text + ("](" + (url + ")")));
    BracketsNested(text, url);
  }

  lemma BracketsNested(text: string, url: string)
    ensures Brackets(text, url) == "[" + (text + ("](" + (url + ")")))
  {
  }

  /** A slice the scan passed over holds neither of the two characters it stops at. */
  lemma NoneBetween(s: string, i: nat, j: nat, a: char, b: char)
    requires i <= j <= |s| && forall x :: i <= x < j ==> s[x] != a && s[x] != b
    ensures a !in s[i..j] && b !in s[i..j]
  {
  }

  /** Every match covers exactly the markup of its groups, and its groups avoid the excluded characters. */
  lemma MatchAtSound(p: Pattern, s: string, i: nat)
    requires i <= |s| && MatchAt(p, s, i).Some?
    ensures var m := MatchAt(p, s, i).value;
      && s[i..m.end] == Markup(p, m.text, m.url)
      && NoBrackets(m.text) && NoParens(m.url)
      && (p == LinkPattern ==> i == 0 || s[i - 1] != '!')
  {
    var m := MatchAt(p, s, i).value;
    BracketsAtSound(s, BracketStart(p, i), i);
    MarkupShape(p, m.text, m.url);
    if p == ImagePattern {
      assert s[i..m.end] == [s[i]] + s[i + 1..m.end];
    }
  }

  lemma BracketsAtComplete(s: string, i: nat, from: nat, text: string, url: string)
    requires i + |text| + |url| + 4 <= |s|
    requires s[i..i + |text| + |url| + 4] == Brackets(text, url)
    requires NoBrackets(text) && NoParens(url)
    ensures BracketsAt(s, i, from) == Some(Match(from, i + |text| + |url| + 4, text, url))
  {
    var j := i + 1 + |text|;
    var k := j + 2 + |url|;
    var w := s[i..k + 1];
    BracketsParts(text, url);
    assert s[i] == w[0] && s[j] == w[j - i] && s[j + 1] == w[j + 1 - i] && s[k] == w[k - i];
    assert s[i + 1..j] == w[1..j - i];
    assert s[j + 2..k] == w[j + 2 - i..k - i];
    BracketsAtFound(s, i, from, j, k);
  }

  /** Where the parts of `[text](url)` stand. */
  lemma BracketsParts(text: string, url: string)
    ensures var b := Brackets(text, url);
      var j := 1 + |text|;
      && |b| == |text| + |url| + 4
      && b[0] == '[' && b[j] == ']' && b[j + 1] == '(' && b[|b| - 1] == ')'
      && b[1..j] == text && b[j + 2..|b| - 1] == url
  {
  }

  /** The matcher at `i` from the positions of its four delimiting characters. */
  lemma BracketsAtFound(s: string, i: nat, from: nat, j: nat, k: nat)
    requires i < j && j + 1 < k < |s|
    requires s[i] == '[' && s[j] == ']' && s[j + 1] == '(' && s[k] == ')'
    requires NoBrackets(s[i + 1..j]) && NoParens(s[j + 2..k])
    ensures BracketsAt(s, i, from) == Some(Match(from, k + 1, s[i + 1..j], s[j + 2..k]))
  {
    forall x | i + 1 <= x < j ensures s[x] != '[' && s[x] != ']' {
      assert s[x] == s[i + 1..j][x - i - 1];
    }
    forall x | j + 2 <= x < k ensures s[x] != '(' && s[x] != ')' {
      assert s[x] == s[j + 2..k][x - j - 2];
    }
    ScanToFinds(s, i + 1, '[', ']', j);
    ScanToFinds(s, j + 2, '(', ')', k);
  }

  /** Whatever text and URL the pattern allows at `i`, the matcher finds exactly them. */
  lemma MatchAtComplete(p: Pattern, s: string, i: nat, text: string, url: string)
    requires i + |Markup(p, text, url)| <= |s|
    requires s[i..i + |Markup(p, text, url)|] == Markup(p, text, url)
    requires NoBrackets(text) && NoParens(url)
    requires p == LinkPattern ==> i == 0 || s[i - 1] != '!'
    ensures MatchAt(p, s, i) == Some(Match(i, i + |Markup(p, text, url)|, text, url))
  {
    var m := Markup(p, text, url);
    var inner := Brackets(text, url);
    var b := BracketStart(p, i);
    MarkupShape(p, text, url);
    if p == ImagePattern {
      assert s[i] == '!' by { assert s[i] == s[i..i + |m|][0]; }
      assert s[b..b + |inner|] == s[i..i + |m|][1..] == inner;
    }
    BracketsAtComplete(s, b, i, text, url);
  }

  lemma ScanToFinds(s: string, i: nat, a: char, b: char, k: nat)
    requires i <= k < |s| && (s[k] == a || s[k] == b)
    requires forall j :: i <= j < k ==> s[j] != a && s[j] != b
    ensures ScanTo(s, i, a, b) == k
  {
    var r := ScanTo(s, i, a, b);
  }

  // ---------------------------------------------------------------------------
  // finditer

  /** `pattern.finditer(s)` from position `i`: leftmost match, then resume after it. */
  function FindIter(p: Pattern, s: string, i: nat): seq<Match>
    requires i <= |s|
    decreases |s| - i
  {
    if i == |s| then []
    else
      match MatchAt(p, s, i)
      case Some(m) => [m] + FindIter(p, s, m.end)
      case None => FindIter(p, s, i + 1)
  }

  predicate NoMatchIn(p: Pattern, s: string, a: nat, b: nat)
    requires b <= |s|
  {
    forall j :: a <= j < b ==> MatchAt(p, s, j).None?
  }

  /**
   * A left-to-right scan from `i`: every match is genuine, none is skipped,
   * and matches neither overlap nor leave an unmatched start behind.
   */
  predicate IsScan(p: Pattern, s: string, i: nat, ms: seq<Match>)
    requires i <= |s|
    decreases |ms|
  {
    if ms == [] then NoMatchIn(p, s, i, |s|)
    else
      && i <= ms[0].start <= |s|
      && MatchAt(p, s, ms[0].start) == Some(ms[0])
      && NoMatchIn(p, s, i, ms[0].start)
      && IsScan(p, s, ms[0].end, ms[1..])
  }

  /** A start without a match may be put in front of a scan. */
  lemma ScanSkip(p: Pattern, s: string, i: nat, ms: seq<Match>)
    requires i < |s| && MatchAt(p, s, i).None? && IsScan(p, s, i + 1, ms)
    ensures IsScan(p, s, i, ms)
  {
  }

  lemma ScanTake(p: Pattern, s: string, i: nat, m: Match, ms: seq<Match>)
    requires i <= |s| && MatchAt(p, s, i) == Some(m) && IsScan(p, s, m.end, ms)
    ensures IsScan(p, s, i, [m] + ms)
  {
    assert ([m] + ms)[1..] == ms;
  }

  lemma {:induction false} FindIterIsScan(p: Pattern, s: string, i: nat)
    requires i <= |s|
    ensures IsScan(p, s, i, FindIter(p, s, i))
    decreases |s| - i
  {
    if i < |s| {
      var r := MatchAt(p, s, i);
      if r.Some? {
        var rest := FindIter(p, s, r.value.end);
        assert FindIter(p, s, i) == [r.value] + rest;
        assert IsScan(p, s, r.value.end, rest) by {
          FindIterIsScan(p, s, r.value.end);
        }
        ScanTake(p, s, i, r.value, rest);
      } else {
        var rest := FindIter(p, s, i + 1);
        assert FindIter(p, s, i) == rest;
        assert IsScan(p, s, i + 1, rest) by {
          FindIterIsScan(p, s, i + 1);
        }
        ScanSkip(p, s, i, rest);
      }
    }
  }

  /** Only one sequence of matches is a scan: `FindIter` is that scan. */
  lemma {:induction false} ScanIsFindIter(p: Pattern, s: string, i: nat, ms: seq<Match>)
    requires i <= |s| && IsScan(p, s, i, ms)
    ensures ms == FindIter(p, s, i)
    decreases |s| - i
  {
    if i == |s| {
      ScanAtEnd(p, s, ms);
    } else {
      var j, head, rest := ScanStep(p, s, i, ms);
      ScanIsFindIter(p, s, j, rest);
    }
  }

  lemma ScanAtEnd(p: Pattern, s: string, ms: seq<Match>)
    requires IsScan(p, s, |s|, ms)
    ensures ms == [] && FindIter(p, s, |s|) == []
  {
  }

  /** One step of a scan and of `FindIter` alike: both take the same head and go on from the same place. */
  lemma ScanStep(p: Pattern, s: string, i: nat, ms: seq<Match>) returns (j: nat, head: seq<Match>, rest: seq<Match>)
    requires i < |s| && IsScan(p, s, i, ms)
    ensures i < j <= |s| && IsScan(p, s, j, rest)
    ensures ms == head + rest && FindIter(p, s, i) == head + FindIter(p, s, j)
  {
    if ms != [] && ms[0].start == i {
      j, head, rest := ms[0].end, [ms[0]], ms[1..];
      assert ms == head + rest;
      ScanHead(p, s, i, ms);
    } else {
      j, head, rest := i + 1, [], ms;
      assert ms == head + rest && FindIter(p, s, j) == head + FindIter(p, s, j);
      ScanAdvance(p, s, i, ms);
    }
  }

  /** A scan that takes the match at its start goes on after that match. */
  lemma ScanHead(p: Pattern, s: string, i: nat, ms: seq<Match>)
    requires i < |s| && IsScan(p, s, i, ms) && ms != [] && ms[0].start == i
    ensures i < ms[0].end <= |s| && IsScan(p, s, ms[0].end, ms[1..])
    ensures FindIter(p, s, i) == [ms[0]] + FindIter(p, s, ms[0].end)
  {
  }

  /** A scan that does not start with a match at `i` has none there. */
  lemma ScanAdvance(p: Pattern, s: string, i: nat, ms: seq<Match>)
    requires i < |s| && IsScan(p, s, i, ms) && (ms == [] || ms[0].start != i)
    ensures IsScan(p, s, i + 1, ms) && FindIter(p, s, i) == FindIter(p, s, i + 1)
  {
    assert MatchAt(p, s, i).None?;
  }

  /** `re.findall` of the image pattern: the (alt, url) group pairs, in order. */
  function ExtractMarkdownImages(text: string): seq<(string, string)> {
    Groups(FindIter(ImagePattern, text, 0))
  }

  /** `re.findall` of the link pattern: the (text, url) group pairs, in order. */
  function ExtractMarkdownLinks(text: string): seq<(string, string)> {
    Groups(FindIter(LinkPattern, text, 0))
  }

  function Groups(ms: seq<Match>): (r: seq<(string, string)>)
    ensures |r| == |ms|
  {
    if ms == [] then [] else [(ms[0].text, ms[0].url)] + Groups(ms[1..])
  }

  /** One (text, url) pair per match, in the order of the matches. */
  lemma {:induction false} GroupsAt(ms: seq<Match>, k: nat)
    requires k < |ms|
    ensures Groups(ms)[k] == (ms[k].text, ms[k].url)
  {
    if k > 0 {
      GroupsAt(ms[1..], k - 1);
    }
  }

  // ---------------------------------------------------------------------------
  // Splitting one NORMAL node

  /** Matches in order, non-overlapping, at or after `pos` and within `n`. */
  predicate Chained(ms: seq<Match>, pos: nat, n: nat)
    decreases |ms|
  {
    ms == [] || (pos <= ms[0].start < ms[0].end <= n && Chained(ms[1..], ms[0].end, n))
  }

  lemma {:induction false} ScanIsChained(p: Pattern, s: string, i: nat, ms: seq<Match>)
    requires i <= |s| && IsScan(p, s, i, ms)
    ensures Chained(ms, i, |s|)
    decreases |ms|
  {
    if ms != [] {
      ScanIsChained(p, s, ms[0].end, ms[1..]);
    }
  }

  /** The cursor loop of `split_nodes_*` over the matches of one node's text. */
  function Assemble(s: string, ms: seq<Match>, pos: nat, kind: TextType): seq<TextNode>
    requires pos <= |s| && Chained(ms, pos, |s|)
    decreases |ms|
  {
    if ms == [] then
      if pos < |s| then [TextNode(s[pos..], Normal, None)] else []
    else
      (if ms[0].start > pos then [TextNode(s[pos..ms[0].start], Normal, None)] else [])
      + [TextNode(ms[0].text, kind, Some(ms[0].url))]
      + Assemble(s, ms[1..], ms[0].end, kind)
  }

  /** What `split_nodes_images` / `split_nodes_links` turn one NORMAL node's text into. */
  function SplitText(p: Pattern, s: string): seq<TextNode> {
    var ms := FindIter(p, s, 0);
    FindIterIsScan(p, s, 0);
    ScanIsChained(p, s, 0, ms);
    Assemble(s, ms, 0, KindOf(p))
  }

  /** One step of the node loop: non-NORMAL nodes pass through unchanged. */
  function SplitNode(p: Pattern, n: TextNode): seq<TextNode> {
    if n.textType != Normal then [n] else SplitText(p, n.text)
  }

  function SplitNodes(p: Pattern, nodes: seq<TextNode>): seq<TextNode> {
    if nodes == [] then []
    else SplitNodes(p, nodes[..|nodes| - 1]) + SplitNode(p, nodes[|nodes| - 1])
  }

  // ---------------------------------------------------------------------------
  // Properties

  /** Each match covers the markup of its own groups. */
  predicate Covers(p: Pattern, s: string, ms: seq<Match>)
    decreases |ms|
  {
    ms == [] ||
      (ms[0].start <= ms[0].end <= |s| && s[ms[0].start..ms[0].end] == Markup(p, ms[0].text, ms[0].url)
       && Covers(p, s, ms[1..]))
  }

  lemma {:induction false} ScanCovers(p: Pattern, s: string, i: nat, ms: seq<Match>)
    requires i <= |s| && IsScan(p, s, i, ms)
    ensures Covers(p, s, ms)
    decreases |ms|
  {
    if ms != [] {
      MatchAtSound(p, s, ms[0].start);
      ScanCovers(p, s, ms[0].end, ms[1..]);
    }
  }

  lemma MarkdownOfSingle(n: TextNode)
    ensures MarkdownOf([n]) == Markdown(n)
  {
    assert [n][1..] == [];
  }

  lemma {:induction false} AssembleRoundTrip(p: Pattern, s: string, ms: seq<Match>, pos: nat)
    requires pos <= |s| && Covers(p, s, ms) && Chained(ms, pos, |s|)
    ensures MarkdownOf(Assemble(s, ms, pos, KindOf(p))) == s[pos..]
    decreases |ms|
  {
    if ms == [] {
      if pos < |s| {
        MarkdownOfSingle(TextNode(s[pos..], Normal, None));
      }
    } else {
      var m := ms[0];
      var before := if m.start > pos then [TextNode(s[pos..m.start], Normal, None)] else [];
      var here := [TextNode(m.text, KindOf(p), Some(m.url))];
      var rest := Assemble(s, ms[1..], m.end, KindOf(p));
      assert Assemble(s, ms, pos, KindOf(p)) == before + here + rest;
      AssembleRoundTrip(p, s, ms[1..], m.end);
      assert MarkdownOf(before) == s[pos..m.start] by {
        if m.start > pos {
          MarkdownOfSingle(before[0]);
        }
      }
      MarkdownOfSingle(here[0]);
      MarkdownOfAppend3(before, here, rest);
      SliceSplit(s, pos, m.start, m.end);
    }
  }

  lemma MarkdownOfAppend3(a: seq<TextNode>, b: seq<TextNode>, c: seq<TextNode>)
    ensures MarkdownOf(a + b + c) == MarkdownOf(a) + MarkdownOf(b) + MarkdownOf(c)
  {
    MarkdownOfAppend(a, b);
    MarkdownOfAppend(a + b, c);
  }

  lemma SliceSplit(s: string, a: nat, b: nat, c: nat)
    requires a <= b <= c <= |s|
    ensures s[a..] == s[a..b] + s[b..c] + s[c..]
  {
  }

  /** Splitting loses and adds nothing: re-rendering images and links gives the text back. */
  lemma SplitTextRoundTrip(p: Pattern, s: string)
    ensures MarkdownOf(SplitText(p, s)) == s
  {
    FindIterIsScan(p, s, 0);
    ScanIsChained(p, s, 0, FindIter(p, s, 0));
    ScanCovers(p, s, 0, FindIter(p, s, 0));
    AssembleRoundTrip(p, s, FindIter(p, s, 0), 0);
  }

  lemma {:induction false} AssembleNormalsNonEmpty(s: string, ms: seq<Match>, pos: nat, kind: TextType)
    requires pos <= |s| && Chained(ms, pos, |s|) && kind != Normal
    ensures NormalsNonEmpty(Assemble(s, ms, pos, kind))
    decreases |ms|
  {
    if ms != [] {
      AssembleNormalsNonEmpty(s, ms[1..], ms[0].end, kind);
      var before := if ms[0].start > pos then [TextNode(s[pos..ms[0].start], Normal, None)] else [];
      var here := [TextNode(ms[0].text, kind, Some(ms[0].url))];
      var rest := Assemble(s, ms[1..], ms[0].end, kind);
      assert Assemble(s, ms, pos, kind) == before + here + rest;
      forall k | 0 <= k < |before + here + rest| && (before + here + rest)[k].textType == Normal
        ensures (before + here + rest)[k].text != ""
      {
        if k >= |before + here| {
          assert (before + here + rest)[k] == rest[k - |before + here|];
        }
      }
    }
  }

  /** No empty NORMAL node is produced, and an empty text produces no node at all. */
  lemma SplitTextNormalsNonEmpty(p: Pattern, s: string)
    ensures NormalsNonEmpty(SplitText(p, s))
    ensures s == "" ==> SplitText(p, s) == []
  {
    FindIterIsScan(p, s, 0);
    ScanIsChained(p, s, 0, FindIter(p, s, 0));
    AssembleNormalsNonEmpty(s, FindIter(p, s, 0), 0, KindOf(p));
  }

  /** The typed spans, read off in order. */
  function TypedGroups(nodes: seq<TextNode>): seq<(string, string)> {
    if nodes == [] then []
    else (if nodes[0].textType != Normal then [(nodes[0].text, nodes[0].url.GetOr(""))] else [])
         + TypedGroups(nodes[1..])
  }

  lemma {:induction false} TypedGroupsAppend(a: seq<TextNode>, b: seq<TextNode>)
    ensures TypedGroups(a + b) == TypedGroups(a) + TypedGroups(b)
  {
    if a == [] {
      assert a + b == b;
    } else {
      assert (a + b)[1..] == a[1..] + b;
      TypedGroupsAppend(a[1..], b);
    }
  }

  lemma EmptyFront(a: seq<(string, string)>, b: seq<(string, string)>)
    ensures [] + a + b == a + b
  {
  }

  lemma {:induction false} AssembleGroups(s: string, ms: seq<Match>, pos: nat, kind: TextType)
    requires pos <= |s| && Chained(ms, pos, |s|) && kind != Normal
    ensures TypedGroups(Assemble(s, ms, pos, kind)) == Groups(ms)
    decreases |ms|
  {
    if ms == [] {
      assert TypedGroups(Assemble(s, ms, pos, kind)) == [] by {
        if pos < |s| {
          assert TypedGroups([TextNode(s[pos..], Normal, None)]) == TypedGroups([]);
        }
      }
    } else {
      var before := if ms[0].start > pos then [TextNode(s[pos..ms[0].start], Normal, None)] else [];
      var here := [TextNode(ms[0].text, kind, Some(ms[0].url))];
      var rest := Assemble(s, ms[1..], ms[0].end, kind);
      assert Assemble(s, ms, pos, kind) == before + here + rest;
      assert TypedGroups(rest) == Groups(ms[1..]) by {
        AssembleGroups(s, ms[1..], ms[0].end, kind);
      }
      assert TypedGroups(before + here + rest) == TypedGroups(before) + TypedGroups(here) + TypedGroups(rest) by {
        TypedGroupsAppend(before, here);
        TypedGroupsAppend(before + here, rest);
      }
      assert TypedGroups(here) == [(ms[0].text, ms[0].url)] by {
        assert TypedGroups(here) == [(ms[0].text, ms[0].url)] + TypedGroups([]);
      }
      assert TypedGroups(before) == [] by {
        if ms[0].start > pos {
          assert TypedGroups(before) == TypedGroups([]);
        }
      }
      assert Groups(ms) == [(ms[0].text, ms[0].url)] + Groups(ms[1..]);
      EmptyFront([(ms[0].text, ms[0].url)], Groups(ms[1..]));
    }
  }

  /** The image nodes `split_nodes_images` emits are exactly what `extract_markdown_images` finds. */
  lemma SplitImagesAgreesWithExtract(s: string)
    ensures TypedGroups(SplitText(ImagePattern, s)) == ExtractMarkdownImages(s)
  {
    FindIterIsScan(ImagePattern, s, 0);
    ScanIsChained(ImagePattern, s, 0, FindIter(ImagePattern, s, 0));
    AssembleGroups(s, FindIter(ImagePattern, s, 0), 0, Image);
  }

  /** The link nodes `split_nodes_links` emits are exactly what `extract_markdown_links` finds. */
  lemma SplitLinksAgreesWithExtract(s: string)
    ensures TypedGroups(SplitText(LinkPattern, s)) == ExtractMarkdownLinks(s)
  {
    FindIterIsScan(LinkPattern, s, 0);
    ScanIsChained(LinkPattern, s, 0, FindIter(LinkPattern, s, 0));
    AssembleGroups(s, FindIter(LinkPattern, s, 0), 0, Link);
  }

  lemma SplitNodeRoundTrip(p: Pattern, n: TextNode)
    ensures MarkdownOf(SplitNode(p, n)) == Markdown(n)
  {
    if n.textType == Normal {
      SplitTextRoundTrip(p, n.text);
    } else {
      MarkdownOfSingle(n);
    }
  }

  /** Over a node list: typed nodes are kept, NORMAL nodes are split, and nothing of the markup is lost. */
  lemma {:induction false} SplitNodesRoundTrip(p: Pattern, nodes: seq<TextNode>)
    ensures MarkdownOf(SplitNodes(p, nodes)) == MarkdownOf(nodes)
    decreases |nodes|
  {
    if nodes != [] {
      var init, last := nodes[..|nodes| - 1], nodes[|nodes| - 1];
      SplitNodesRoundTrip(p, init);
      MarkdownOfAppend(SplitNodes(p, init), SplitNode(p, last));
      assert nodes == init + [last];
      MarkdownOfAppend(init, [last]);
      MarkdownOfSingle(last);
      SplitNodeRoundTrip(p, last);
    }
  }

  lemma {:induction false} SplitNodesNormalsNonEmpty(p: Pattern, nodes: seq<TextNode>)
    requires NormalsNonEmpty(nodes)
    ensures NormalsNonEmpty(SplitNodes(p, nodes))
    decreases |nodes|
  {
    if nodes != [] {
      var init, last := nodes[..|nodes| - 1], nodes[|nodes| - 1];
      assert forall k :: 0 <= k < |init| ==> init[k] == nodes[k];
      SplitNodesNormalsNonEmpty(p, init);
      SplitTextNormalsNonEmpty(p, last.text);
      var a: seq<TextNode>, b: seq<TextNode> := SplitNodes(p, init), SplitNode(p, last);
      forall k | 0 <= k < |a + b| && (a + b)[k].textType == Normal ensures (a + b)[k].text != "" {
        if k >= |a| { assert (a + b)[k] == b[k - |a|]; }
      }
    }
  }

  lemma SplitNodesSingle(p: Pattern, n: TextNode)
    ensures SplitNodes(p, [n]) == SplitNode(p, n)
  {
    assert [n][..0] == [];
  }

  /** Without `[` neither an image nor a link can match. */
  lemma {:induction false} NoBracketNoMatch(p: Pattern, s: string, i: nat)
    requires '[' !in s && i <= |s|
    ensures FindIter(p, s, i) == []
    decreases |s| - i
  {
    if i < |s| {
      NoBracketNoMatch(p, s, i + 1);
    }
  }

  lemma NoBracketUnsplit(p: Pattern, s: string)
    requires '[' !in s && s != ""
    ensures SplitNodes(p, [TextNode(s, Normal, None)]) == [TextNode(s, Normal, None)]
  {
    SplitNodesSingle(p, TextNode(s, Normal, None));
    NoBracketNoMatch(p, s, 0);
  }

  // ---------------------------------------------------------------------------
  // The loops as the source runs them

  /** The body shared by `split_nodes_images` and `split_nodes_links`. */
  method SplitNodesBy(p: Pattern, oldNodes: seq<TextNode>) returns (newNodes: seq<TextNode>)
    ensures newNodes == SplitNodes(p, oldNodes)
  {
    newNodes := [];
    for i := 0 to |oldNodes|
      invariant newNodes == SplitNodes(p, oldNodes[..i])
    {
      var node := oldNodes[i];
      assert oldNodes[..i + 1][..i] == oldNodes[..i];
      if node.textType != Normal {
        newNodes := newNodes + [node];
        continue;
      }
      var pieces := SplitTextBy(p, node.text);
      newNodes := newNodes + pieces;
    }
    assert oldNodes[..|oldNodes|] == oldNodes;
  }

  /** The inner loop: a cursor walks the matches of one NORMAL node's text. */
  method SplitTextBy(p: Pattern, text: string) returns (nodes: seq<TextNode>)
    ensures nodes == SplitText(p, text)
  {
    var kind := KindOf(p);
    var matches := FindIter(p, text, 0);
    FindIterIsScan(p, text, 0);
    ScanIsChained(p, text, 0, matches);
    ghost var goal := Assemble(text, matches, 0, kind);
    assert goal == SplitText(p, text);
    nodes := [];
    var pos: nat := 0;
    for j := 0 to |matches|
      invariant pos <= |text| && Chained(matches[j..], pos, |text|)
      invariant nodes + Assemble(text, matches[j..], pos, kind) == goal
    {
      var m := matches[j];
      var piece: seq<TextNode> := [];
      if m.start > pos {
        piece := [TextNode(text[pos..m.start], Normal, None)];
      }
      piece := piece + [TextNode(m.text, kind, Some(m.url))];
      AssembleFirst(text, matches, j, pos, kind);
      Assoc(nodes, piece, Assemble(text, matches[j + 1..], m.end, kind));
      nodes := nodes + piece;
      pos := m.end;
    }
    if pos < |text| {
      nodes := nodes + [TextNode(text[pos..], Normal, None)];
    }
  }

  /** `Assemble` from the `j`-th match: the text before it, its node, then the rest. */
  lemma AssembleFirst(s: string, ms: seq<Match>, j: nat, pos: nat, kind: TextType)
    requires j < |ms| && pos <= |s| && Chained(ms[j..], pos, |s|)
    ensures ms[j].end <= |s| && Chained(ms[j + 1..], ms[j].end, |s|)
    ensures Assemble(s, ms[j..], pos, kind)
         == (if ms[j].start > pos then [TextNode(s[pos..ms[j].start], Normal, None)] else [])
            + [TextNode(ms[j].text, kind, Some(ms[j].url))]
            + Assemble(s, ms[j + 1..], ms[j].end, kind)
  {
    assert ms[j..][1..] == ms[j + 1..];
  }

  lemma Assoc(a: seq<TextNode>, b: seq<TextNode>, c: seq<TextNode>)
    ensures a + (b + c) == a + b + c
  {
  }

  /** `split_nodes_images`. */
  method SplitNodesImages(oldNodes: seq<TextNode>) returns (newNodes: seq<TextNode>)
    ensures newNodes == SplitNodes(ImagePattern, oldNodes)
  {
    newNodes := SplitNodesBy(ImagePattern, oldNodes);
  }

  /** `split_nodes_links`. */
  method SplitNodesLinks(oldNodes: seq<TextNode>) returns (newNodes: seq<TextNode>)
    ensures newNodes == SplitNodes(LinkPattern, oldNodes)
  {
    newNodes := SplitNodesBy(LinkPattern, oldNodes);
  }
}
