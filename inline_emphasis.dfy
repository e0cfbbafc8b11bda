/**
 * Code, bold and italic spans (`recursively_format_nodes` and
 * `recursively_format_nodes_from_match`).
 *
 * The three searches `` `(.*?)` ``, `\*\*(.*?)\*\*` and `_(.*?)_` are written
 * out as matchers: the leftmost start holding the delimiter, then the
 * shortest run without a line feed (`.` does not match `\n`) that is
 * followed by the delimiter again.  Code is looked for first, then bold,
 * then italic; the text before and after the first match found is
 * formatted again, and so is the text inside it.
 */
module InlineEmphasis {
  import opened Wrappers
  import opened TextNodes

  datatype Delimiter = Backtick | DoubleStar | Underscore

  function Mark(d: Delimiter): (m: string)
    ensures |m| >= 1
  {
    match d
    case Backtick => "`"
    case DoubleStar => "**"
    case Underscore => "_"
  }

  function KindOf(d: Delimiter): (t: TextType)
    ensures t == Code || t == Bold || t == Italic
  {
    match d
    case Backtick => Code
    case DoubleStar => Bold
    case Underscore => Italic
  }

  /** A match `s[start..end]` whose group 1 is `s[innerStart..innerEnd]`. */
  datatype Span = Span(start: nat, innerStart: nat, innerEnd: nat, end: nat)

  /** The span lies in a text of length `n` and both delimiters are non-empty. */
  predicate WellSpan(sp: Span, n: nat) {
    sp.start < sp.innerStart <= sp.innerEnd < sp.end <= n
  }

  /** The delimiter stands at `k`, character by character. */
  predicate MarkAt(d: Delimiter, s: string, k: nat) {
    match d
    case Backtick => k < |s| && s[k] == '`'
    case DoubleStar => k + 1 < |s| && s[k] == '*' && s[k + 1] == '*'
    case Underscore => k < |s| && s[k] == '_'
  }

  /** `MarkAt` is the delimiter read as a slice of the text. */
  lemma MarkAtSlice(d: Delimiter, s: string, k: nat)
    ensures MarkAt(d, s, k) <==> k + |Mark(d)| <= |s| && s[k..k + |Mark(d)|] == Mark(d)
  {
    if k + |Mark(d)| <= |s| && s[k..k + |Mark(d)|] == Mark(d) {
      assert s[k] == s[k..k + |Mark(d)|][0];
      if d == DoubleStar {
        assert s[k + 1] == s[k..k + 2][1];
      }
    }
  }

  /** No character in `s[i..j]` is `c`. */
  predicate Lacks(s: string, i: nat, j: nat, c: char)
    requires i <= j <= |s|
  {
    forall x :: i <= x < j ==> s[x] != c
  }

  /** `s[a..b]` is in the language of the pattern: delimiter, a run without line feed, delimiter. */
  predicate IsMatch(d: Delimiter, s: string, a: nat, b: nat) {
    && a + 2 * |Mark(d)| <= b <= |s|
    && MarkAt(d, s, a)
    && MarkAt(d, s, b - |Mark(d)|)
    && NoLineFeed(s, a + |Mark(d)|, b - |Mark(d)|)
  }

  predicate NoLineFeed(s: string, i: nat, j: nat)
    requires i <= j <= |s|
  {
    Lacks(s, i, j, '\n')
  }

  /** The lazy group from `j`: the first closing delimiter not preceded by a line feed. */
  function CloseFrom(d: Delimiter, s: string, j: nat): (k: Option<nat>)
    requires j <= |s|
    ensures k.Some? ==> j <= k.value <= |s| && MarkAt(d, s, k.value)
    decreases |s| - j
  {
    if MarkAt(d, s, j) then Some(j)
    else if j == |s| || s[j] == '\n' then None
    else CloseFrom(d, s, j + 1)
  }

  /** The closing delimiter found is the first one, and no line feed comes before it. */
  lemma {:induction false} CloseFromFirst(d: Delimiter, s: string, j: nat)
    requires j <= |s| && CloseFrom(d, s, j).Some?
    ensures NoLineFeed(s, j, CloseFrom(d, s, j).value)
    ensures forall x :: j <= x < CloseFrom(d, s, j).value ==> !MarkAt(d, s, x)
    decreases |s| - j
  {
    if !MarkAt(d, s, j) {
      CloseFromFirst(d, s, j + 1);
    }
  }

  /** The pattern anchored at `i`. */
  function MatchAt(d: Delimiter, s: string, i: nat): (r: Option<Span>)
    requires i <= |s|
    ensures r.Some? ==> r.value.start == i && WellSpan(r.value, |s|)
    ensures r.Some? ==> r.value.innerStart == i + |Mark(d)| && r.value.end == r.value.innerEnd + |Mark(d)|
  {
    if !MarkAt(d, s, i) then None
    else
      match CloseFrom(d, s, i + |Mark(d)|)
      case None => None
      case Some(k) => Some(Span(i, i + |Mark(d)|, k, k + |Mark(d)|))
  }

  /** `re.search` from position `i`: the match at the leftmost start that has one. */
  function Search(d: Delimiter, s: string, i: nat): (r: Option<Span>)
    requires i <= |s|
    ensures r.Some? ==> i <= r.value.start <= |s| && MatchAt(d, s, r.value.start) == r
    decreases |s| - i
  {
    match MatchAt(d, s, i)
    case Some(sp) => Some(sp)
    case None => if i == |s| then None else Search(d, s, i + 1)
  }

  lemma {:induction false} CloseFromFinds(d: Delimiter, s: string, j: nat, c: nat)
    requires j <= c <= |s| && MarkAt(d, s, c) && NoLineFeed(s, j, c)
    ensures CloseFrom(d, s, j).Some? && CloseFrom(d, s, j).value <= c
    decreases c - j
  {
    if !MarkAt(d, s, j) {
      CloseFromFinds(d, s, j + 1, c);
    }
  }

  /** A match found at `a` is in the pattern's language and is the shortest one starting there. */
  lemma MatchAtSound(d: Delimiter, s: string, a: nat)
    requires a <= |s| && MatchAt(d, s, a).Some?
    ensures IsMatch(d, s, a, MatchAt(d, s, a).value.end)
    ensures forall b: nat :: b < MatchAt(d, s, a).value.end ==> !IsMatch(d, s, a, b)
  {
    CloseFromFirst(d, s, a + |Mark(d)|);
  }

  /** Wherever the pattern's language has a word starting at `a`, the matcher finds one there. */
  lemma MatchAtComplete(d: Delimiter, s: string, a: nat, b: nat)
    requires IsMatch(d, s, a, b)
    ensures MatchAt(d, s, a).Some? && MatchAt(d, s, a).value.end <= b
  {
    CloseFromFinds(d, s, a + |Mark(d)|, b - |Mark(d)|);
  }

  lemma NoMatchAt(d: Delimiter, s: string, a: nat)
    requires a <= |s| && MatchAt(d, s, a).None?
    ensures forall b: nat :: !IsMatch(d, s, a, b)
  {
    forall b: nat | IsMatch(d, s, a, b) ensures false {
      MatchAtComplete(d, s, a, b);
    }
  }

  lemma {:induction false} SearchMisses(d: Delimiter, s: string, i: nat)
    requires i <= |s| && Search(d, s, i).None?
    ensures forall a: nat, b: nat :: i <= a ==> !IsMatch(d, s, a, b)
    decreases |s| - i
  {
    NoMatchAt(d, s, i);
    if i < |s| {
      SearchMisses(d, s, i + 1);
    }
  }

  lemma {:induction false} SearchSkips(d: Delimiter, s: string, i: nat)
    requires i <= |s| && Search(d, s, i).Some?
    ensures forall a: nat, b: nat :: i <= a < Search(d, s, i).value.start ==> !IsMatch(d, s, a, b)
    decreases |s| - i
  {
    if MatchAt(d, s, i).None? {
      var stop := Search(d, s, i + 1).value.start;
      assert Search(d, s, i).value.start == stop;
      NoMatchAt(d, s, i);
      SearchSkips(d, s, i + 1);
      forall a: nat, b: nat | i <= a < stop ensures !IsMatch(d, s, a, b) {
        if a > i {
          assert i + 1 <= a < stop;
        }
      }
    }
  }

  /** `re.search` semantics: a found match is the leftmost, shortest word; none is found only if there is none. */
  lemma SearchLeftmost(d: Delimiter, s: string, i: nat)
    requires i <= |s|
    ensures Search(d, s, i).None? ==> forall a: nat, b: nat :: i <= a ==> !IsMatch(d, s, a, b)
    ensures Search(d, s, i).Some? ==>
      var sp := Search(d, s, i).value;
      && IsMatch(d, s, sp.start, sp.end)
      && (forall a: nat, b: nat :: i <= a < sp.start ==> !IsMatch(d, s, a, b))
      && (forall b: nat :: b < sp.end ==> !IsMatch(d, s, sp.start, b))
  {
    var r := Search(d, s, i);
    if r.Some? {
      MatchAtSound(d, s, r.value.start);
      SearchSkips(d, s, i);
    } else {
      SearchMisses(d, s, i);
    }
  }

  // ---------------------------------------------------------------------------
  // Formatting

  /** The first of the three searches that finds something, in priority order code, bold, italic. */
  function FirstMatch(text: string): (r: Option<(Delimiter, Span)>)
    ensures r.Some? ==> WellSpan(r.value.1, |text|)
  {
    match Search(Backtick, text, 0)
    case Some(sp) => Some((Backtick, sp))
    case None =>
      match Search(DoubleStar, text, 0)
      case Some(sp) => Some((DoubleStar, sp))
      case None =>
        match Search(Underscore, text, 0)
        case Some(sp) => Some((Underscore, sp))
        case None => None
  }

  /** `recursively_format_nodes([TextNode(text, NORMAL)])`. */
  function Format(text: string): seq<TextNode>
    decreases |text|, 1
  {
    match FirstMatch(text)
    case None => [TextNode(text, Normal, None)]
    case Some((d, sp)) => FromMatch(text, d, sp)
  }

  /** `recursively_format_nodes_from_match`. */
  function FromMatch(text: string, d: Delimiter, sp: Span): seq<TextNode>
    requires WellSpan(sp, |text|)
    decreases |text|, 0
  {
    var before := text[..sp.start];
    var after := text[sp.end..];
    (if before != "" then Format(before) else [])
    + [Wrap(Format(text[sp.innerStart..sp.innerEnd]), KindOf(d))]
    + (if after != "" then Format(after) else [])
  }

  /** One inner node is retyped in place; several are joined into one node of the new type. */
  function Wrap(inner: seq<TextNode>, t: TextType): TextNode {
    if |inner| == 1 then inner[0].(textType := t) else TextNode(Texts(inner), t, None)
  }

  /** `recursively_format_nodes` on one node: a typed node passes through, a NORMAL node is formatted. */
  function FormatNode(n: TextNode): seq<TextNode> {
    if n.textType != Normal then [n] else Format(n.text)
  }

  /** `recursively_format_nodes` over a list, node by node. */
  function FormatNodes(nodes: seq<TextNode>): seq<TextNode> {
    if nodes == [] then [] else FormatNodes(nodes[..|nodes| - 1]) + FormatNode(nodes[|nodes| - 1])
  }

  // ---------------------------------------------------------------------------
  // Properties

  /** Some word of the pattern's language occurs in `s`. */
  ghost predicate HasMatch(d: Delimiter, s: string) {
    exists a: nat, b: nat :: IsMatch(d, s, a, b)
  }

  /**
   * The delimiter is chosen by type, not by position: code if the text holds
   * any code span, else bold if it holds any bold span, else italic; within
   * that type the match is the leftmost start with the shortest inner run.
   * Nothing is chosen only when no type matches at all.
   */
  lemma TypePriority(text: string)
    ensures FirstMatch(text).None? <==>
      !HasMatch(Backtick, text) && !HasMatch(DoubleStar, text) && !HasMatch(Underscore, text)
    ensures FirstMatch(text).Some? ==>
      var (d, sp) := FirstMatch(text).value;
      && (d == Backtick <==> HasMatch(Backtick, text))
      && (d == DoubleStar <==> !HasMatch(Backtick, text) && HasMatch(DoubleStar, text))
      && IsMatch(d, text, sp.start, sp.end)
      && (forall a: nat, b: nat :: a < sp.start ==> !IsMatch(d, text, a, b))
      && (forall b: nat :: b < sp.end ==> !IsMatch(d, text, sp.start, b))
  {
    SearchLeftmost(Backtick, text, 0);
    SearchLeftmost(DoubleStar, text, 0);
    SearchLeftmost(Underscore, text, 0);
    var r := FirstMatch(text);
    if r.Some? {
      var (d, sp) := r.value;
      assert IsMatch(d, text, sp.start, sp.end);
    }
  }


  predicate Every(nodes: seq<TextNode>, P: TextNode -> bool) {
    forall k :: 0 <= k < |nodes| ==> P(nodes[k])
  }

  lemma EveryConcat(a: seq<TextNode>, b: seq<TextNode>, P: TextNode -> bool)
    ensures Every(a + b, P) <==> Every(a, P) && Every(b, P)
  {
    if Every(a, P) && Every(b, P) {
      forall k | 0 <= k < |a + b| ensures P((a + b)[k]) {
        if k >= |a| { assert (a + b)[k] == b[k - |a|]; }
      }
    }
    if Every(a + b, P) {
      forall k | 0 <= k < |b| ensures P(b[k]) {
        assert (a + b)[|a| + k] == b[k];
      }
      forall k | 0 <= k < |a| ensures P(a[k]) {
        assert (a + b)[k] == a[k];
      }
    }
  }

  predicate NoUrl(n: TextNode) {
    n.url.None?
  }

  /** Formatting never produces a link or an image and never attaches a URL. */
  predicate Plain(n: TextNode) {
    n.url.None? && n.textType != Link && n.textType != Image
  }

  /** A NORMAL node is never empty and holds nothing any of the three searches would still find. */
  predicate Settled(n: TextNode) {
    n.textType == Normal ==> n.text != "" && FirstMatch(n.text).None?
  }

  lemma FromMatchParts(text: string, d: Delimiter, sp: Span, P: TextNode -> bool)
    requires WellSpan(sp, |text|)
    requires text[..sp.start] != "" ==> Every(Format(text[..sp.start]), P)
    requires text[sp.end..] != "" ==> Every(Format(text[sp.end..]), P)
    requires P(Wrap(Format(text[sp.innerStart..sp.innerEnd]), KindOf(d)))
    ensures Every(FromMatch(text, d, sp), P)
  {
    var before := text[..sp.start];
    var after := text[sp.end..];
    var a := if before != "" then Format(before) else [];
    var w := [Wrap(Format(text[sp.innerStart..sp.innerEnd]), KindOf(d))];
    var c := if after != "" then Format(after) else [];
    EveryConcat(a, w, P);
    EveryConcat(a + w, c, P);
  }

  lemma {:induction false} FormatPlain(text: string)
    ensures Every(Format(text), Plain)
    decreases |text|, 1
  {
    match FirstMatch(text)
    case None =>
    case Some((d, sp)) => FromMatchPlain(text, d, sp);
  }

  lemma {:induction false} FromMatchPlain(text: string, d: Delimiter, sp: Span)
    requires WellSpan(sp, |text|)
    ensures Every(FromMatch(text, d, sp), Plain)
    decreases |text|, 0
  {
    var before := text[..sp.start];
    var after := text[sp.end..];
    if before != "" { FormatPlain(before); }
    if after != "" { FormatPlain(after); }
    FormatPlain(text[sp.innerStart..sp.innerEnd]);
    WrapPlain(Format(text[sp.innerStart..sp.innerEnd]), KindOf(d));
    FromMatchParts(text, d, sp, Plain);
  }

  /** Wrapping plain nodes as code, bold or italic gives a plain node. */
  lemma WrapPlain(inner: seq<TextNode>, t: TextType)
    requires Every(inner, Plain) && (t == Code || t == Bold || t == Italic)
    ensures Plain(Wrap(inner, t))
  {
    if |inner| == 1 {
      assert Plain(inner[0]);
    }
  }

  lemma {:induction false} FormatSettled(text: string)
    requires text != ""
    ensures Every(Format(text), Settled)
    decreases |text|, 1
  {
    match FirstMatch(text)
    case None =>
    case Some((d, sp)) => FromMatchSettled(text, d, sp);
  }

  lemma {:induction false} FromMatchSettled(text: string, d: Delimiter, sp: Span)
    requires WellSpan(sp, |text|)
    ensures Every(FromMatch(text, d, sp), Settled)
    decreases |text|, 0
  {
    var before := text[..sp.start];
    var after := text[sp.end..];
    if before != "" { FormatSettled(before); }
    if after != "" { FormatSettled(after); }
    FromMatchParts(text, d, sp, Settled);
  }

  /** The wrapped node is always the concatenated inner text under the new type. */
  lemma WrapCollapses(inner: string, t: TextType)
    ensures Wrap(Format(inner), t) == TextNode(Texts(Format(inner)), t, None)
  {
    var nodes := Format(inner);
    FormatPlain(inner);
    if |nodes| == 1 {
      assert Plain(nodes[0]);
      assert nodes[1..] == [];
    }
  }

  /** Formatting only drops delimiters: the plain text never grows. */
  lemma {:induction false} FormatShrinks(text: string)
    ensures |Texts(Format(text))| <= |text|
    decreases |text|, 1
  {
    match FirstMatch(text)
    case None =>
      assert Texts([TextNode(text, Normal, None)]) == text + Texts([]);
    case Some((d, sp)) => FromMatchShrinks(text, d, sp);
  }

  lemma {:induction false} FromMatchShrinks(text: string, d: Delimiter, sp: Span)
    requires WellSpan(sp, |text|)
    ensures |Texts(FromMatch(text, d, sp))| < |text|
    decreases |text|, 0
  {
    var before := text[..sp.start];
    var after := text[sp.end..];
    var innerText := text[sp.innerStart..sp.innerEnd];
    var a := if before != "" then Format(before) else [];
    var w := Wrap(Format(innerText), KindOf(d));
    var c := if after != "" then Format(after) else [];
    if before != "" { FormatShrinks(before); }
    if after != "" { FormatShrinks(after); }
    FormatShrinks(innerText);
    WrapCollapses(innerText, KindOf(d));
    assert Texts([w]) == w.text + Texts([]);
    TextsAppend(a, [w]);
    TextsAppend(a + [w], c);
  }

  /** Text free of the three delimiter characters comes back as one NORMAL node. */
  lemma NoDelimitersUnchanged(text: string)
    requires '`' !in text && '*' !in text && '_' !in text
    ensures Format(text) == [TextNode(text, Normal, None)]
  {
    assert FirstMatch(text).None? by {
      NoMarkNoSearch(Backtick, text);
      NoMarkNoSearch(DoubleStar, text);
      NoMarkNoSearch(Underscore, text);
    }
  }

  lemma FormatNodesSingle(text: string)
    ensures FormatNodes([TextNode(text, Normal, None)]) == Format(text)
  {
    var nodes := [TextNode(text, Normal, None)];
    assert nodes[..0] == [];
  }

  /** Over a node list: typed nodes are kept, and no NORMAL node that comes out is empty or unformatted. */
  lemma {:induction false} FormatNodesSettled(nodes: seq<TextNode>)
    requires NormalsNonEmpty(nodes)
    ensures Every(FormatNodes(nodes), Settled)
    decreases |nodes|
  {
    if nodes != [] {
      var init, last := nodes[..|nodes| - 1], nodes[|nodes| - 1];
      assert NormalsNonEmpty(init) by {
        forall k | 0 <= k < |init| ensures init[k] == nodes[k] { }
      }
      FormatNodesSettled(init);
      var tail := FormatNode(last);
      if last.textType == Normal {
        FormatSettled(last.text);
      }
      EveryConcat(FormatNodes(init), tail, Settled);
    }
  }

  /** A stretch without the delimiter's first character holds no start of a match. */
  lemma {:induction false} SearchSkipsTo(d: Delimiter, s: string, i: nat, k: nat)
    requires i <= k <= |s| && Lacks(s, i, k, Mark(d)[0])
    ensures Search(d, s, i) == Search(d, s, k)
    decreases k - i
  {
    if i < k {
      assert Search(d, s, i) == Search(d, s, i + 1) by {
        NotMarkAt(d, s, i);
        SearchPasses(d, s, i);
      }
      assert Search(d, s, i + 1) == Search(d, s, k) by {
        assert Lacks(s, i + 1, k, Mark(d)[0]);
        SearchSkipsTo(d, s, i + 1, k);
      }
    }
  }

  /** Without the delimiter's first character at `i` there is no delimiter there. */
  lemma NotMarkAt(d: Delimiter, s: string, i: nat)
    requires i < |s| && s[i] != Mark(d)[0]
    ensures !MarkAt(d, s, i)
  {
  }

  /** No delimiter at `i`: the search goes on from the next position. */
  lemma SearchPasses(d: Delimiter, s: string, i: nat)
    requires i < |s| && !MarkAt(d, s, i)
    ensures Search(d, s, i) == Search(d, s, i + 1)
  {
  }

  /** The closing delimiter is the first one after `j`, on the same line. */
  lemma {:induction false} CloseFromAt(d: Delimiter, s: string, j: nat, c: nat)
    requires j <= c <= |s| && MarkAt(d, s, c)
    requires Lacks(s, j, c, Mark(d)[0]) && NoLineFeed(s, j, c)
    ensures CloseFrom(d, s, j) == Some(c)
    decreases c - j
  {
    if j < c {
      assert !MarkAt(d, s, j);
      CloseFromAt(d, s, j + 1, c);
    }
  }

  /** A text without the delimiter's first character has no match of it. */
  lemma NoMarkNoSearch(d: Delimiter, s: string)
    requires Mark(d)[0] !in s
    ensures Search(d, s, 0).None?
  {
    assert Lacks(s, 0, |s|, Mark(d)[0]) by {
      forall x | 0 <= x < |s| ensures s[x] != Mark(d)[0] {
        assert s[x] in s;
      }
    }
    SearchSkipsTo(d, s, 0, |s|);
  }

  lemma SliceLacks(s: string, i: nat, j: nat, c: char)
    requires i <= j <= |s| && c !in s[i..j]
    ensures Lacks(s, i, j, c)
  {
    forall x | i <= x < j ensures s[x] != c {
      assert s[x] == s[i..j][x - i];
    }
  }

  /** One step of the recursion, with the three parts named. */
  lemma FormatStep(text: string, d: Delimiter, sp: Span, before: seq<TextNode>, inner: seq<TextNode>, after: seq<TextNode>)
    requires FirstMatch(text) == Some((d, sp))
    requires before == (if sp.start > 0 then Format(text[..sp.start]) else [])
    requires inner == Format(text[sp.innerStart..sp.innerEnd])
    requires after == (if sp.end < |text| then Format(text[sp.end..]) else [])
    ensures Format(text) == before + [Wrap(inner, KindOf(d))] + after
  {
    assert text[..sp.start] != "" <==> sp.start > 0;
    assert text[sp.end..] != "" <==> sp.end < |text|;
  }

  /** The search finds the span opening at `i` and closing at `c` when nothing before `i` or inside could start a delimiter. */
  lemma SearchFinds(d: Delimiter, s: string, i: nat, c: nat)
    requires i + |Mark(d)| <= c && MarkAt(d, s, i) && MarkAt(d, s, c)
    requires Lacks(s, 0, i, Mark(d)[0])
    requires Lacks(s, i + |Mark(d)|, c, Mark(d)[0]) && NoLineFeed(s, i + |Mark(d)|, c)
    ensures Search(d, s, 0) == Some(Span(i, i + |Mark(d)|, c, c + |Mark(d)|))
  {
    var sp := Span(i, i + |Mark(d)|, c, c + |Mark(d)|);
    assert Search(d, s, i) == Some(sp) by {
      CloseFromAt(d, s, i + |Mark(d)|, c);
      assert MatchAt(d, s, i) == Some(sp);
    }
    SearchSkipsTo(d, s, 0, i);
  }

  /** Text holding none of the three delimiter characters. */
  predicate PlainWord(s: string) {
    s != "" && '`' !in s && '*' !in s && '_' !in s && '\n' !in s
  }

  /** A character missing from three words and from the separator is missing from the joined text. */
  lemma AbsentFromThree(ch: char, x: string, y: string, z: string, m: string)
    requires ch !in x && ch !in y && ch !in z && ch !in m
    ensures ch !in x + m + y + m + z
  {
  }

  /** In `x _y_ z` the search finds the italic span and nothing of higher priority. */
  lemma ItalicBetweenMatch(x: string, y: string, z: string)
    requires PlainWord(x) && PlainWord(y) && PlainWord(z)
    ensures FirstMatch(x + "_" + y + "_" + z) == Some((Underscore, Span(|x|, |x| + 1, |x| + 1 + |y|, |x| + 2 + |y|)))
  {
    var text := x + "_" + y + "_" + z;
    var i, j := |x|, |x| + 1 + |y|;
    assert Search(Backtick, text, 0).None? by {
      AbsentFromThree('`', x, y, z, "_");
      NoMarkNoSearch(Backtick, text);
    }
    assert Search(DoubleStar, text, 0).None? by {
      AbsentFromThree('*', x, y, z, "_");
      NoMarkNoSearch(DoubleStar, text);
    }
    assert Search(Underscore, text, 0) == Some(Span(i, i + 1, j, j + 1)) by {
      assert text[0..i] == x && text[i + 1..j] == y;
      assert text[i] == '_' && text[j] == '_';
      SliceLacks(text, 0, i, '_');
      SliceLacks(text, i + 1, j, '_');
      SliceLacks(text, i + 1, j, '\n');
      SearchFinds(Underscore, text, i, j);
    }
  }

  /** The italic span of `x _y_ z` is split off with its two sides formatted on their own. */
  lemma ItalicStep(x: string, y: string, z: string)
    requires PlainWord(x) && PlainWord(y) && PlainWord(z)
    ensures Format(x + "_" + y + "_" + z) == Format(x) + [Wrap(Format(y), Italic)] + Format(z)
  {
    var text := x + "_" + y + "_" + z;
    var i, j := |x|, |x| + 1 + |y|;
    var sp := Span(i, i + 1, j, j + 1);
    assert FirstMatch(text) == Some((Underscore, sp)) by {
      ItalicBetweenMatch(x, y, z);
    }
    UnderscorePieces(x, y, z);
    assert Format(text[..i]) == Format(x);
    assert Format(text[i + 1..j]) == Format(y);
    assert Format(text[j + 1..]) == Format(z);
    FormatStep(text, Underscore, sp, Format(x), Format(y), Format(z));
  }

  /** The three pieces of `x _y_ z`, read back by position. */
  lemma UnderscorePieces(x: string, y: string, z: string)
    ensures var text := x + "_" + y + "_" + z;
      var j := |x| + 1 + |y|;
      text[..|x|] == x && text[|x| + 1..j] == y && text[j + 1..] == z
  {
  }

  /** One italic span between plain words: `x _y_ z` gives three nodes. */
  lemma ItalicBetween(x: string, y: string, z: string)
    requires PlainWord(x) && PlainWord(y) && PlainWord(z)
    ensures Format(x + "_" + y + "_" + z) == [TextNode(x, Normal, None), TextNode(y, Italic, None), TextNode(z, Normal, None)]
  {
    ItalicStep(x, y, z);
    NoDelimitersUnchanged(x);
    NoDelimitersUnchanged(y);
    NoDelimitersUnchanged(z);
    WrapThree(Format(x + "_" + y + "_" + z), Format(x), Format(y), Format(z), x, y, z, Italic);
  }

  lemma WrapThree(r: seq<TextNode>, fx: seq<TextNode>, fy: seq<TextNode>, fz: seq<TextNode>, x: string, y: string, z: string, t: TextType)
    requires r == fx + [Wrap(fy, t)] + fz
    requires fx == [TextNode(x, Normal, None)] && fy == [TextNode(y, Normal, None)] && fz == [TextNode(z, Normal, None)]
    ensures r == [TextNode(x, Normal, None), TextNode(y, t, None), TextNode(z, Normal, None)]
  {
  }

  /** In `x **y** z` the search finds the bold span, there being no code span. */
  lemma BoldBetweenMatch(x: string, y: string, z: string)
    requires PlainWord(x) && PlainWord(y) && PlainWord(z)
    ensures FirstMatch(x + "**" + y + "**" + z) == Some((DoubleStar, Span(|x|, |x| + 2, |x| + 2 + |y|, |x| + 4 + |y|)))
  {
    var text := x + "**" + y + "**" + z;
    var i, j := |x|, |x| + 2 + |y|;
    assert Search(Backtick, text, 0).None? by {
      AbsentFromThree('`', x, y, z, "**");
      NoMarkNoSearch(Backtick, text);
    }
    assert Search(DoubleStar, text, 0) == Some(Span(i, i + 2, j, j + 2)) by {
      StarPieces(x, y, z);
      SliceLacks(text, 0, i, '*');
      SliceLacks(text, i + 2, j, '*');
      SliceLacks(text, i + 2, j, '\n');
      SearchFinds(DoubleStar, text, i, j);
    }
  }

  /** The pieces and the four stars of `x **y** z`, read back by position. */
  lemma StarPieces(x: string, y: string, z: string)
    ensures var text := x + "**" + y + "**" + z;
      var i, j := |x|, |x| + 2 + |y|;
      text[..i] == x && text[i + 2..j] == y && text[j + 2..] == z
      && text[i] == '*' && text[i + 1] == '*' && text[j] == '*' && text[j + 1] == '*'
  {
  }

  /** One bold span between plain words: `x **y** z` gives three nodes. */
  lemma BoldBetween(x: string, y: string, z: string)
    requires PlainWord(x) && PlainWord(y) && PlainWord(z)
    ensures Format(x + "**" + y + "**" + z) == [TextNode(x, Normal, None), TextNode(y, Bold, None), TextNode(z, Normal, None)]
  {
    BoldStep(x, y, z);
    NoDelimitersUnchanged(x);
    NoDelimitersUnchanged(y);
    NoDelimitersUnchanged(z);
    WrapThree(Format(x + "**" + y + "**" + z), Format(x), Format(y), Format(z), x, y, z, Bold);
  }

  /** The bold span of `x **y** z` is split off with its two sides formatted on their own. */
  lemma BoldStep(x: string, y: string, z: string)
    requires PlainWord(x) && PlainWord(y) && PlainWord(z)
    ensures Format(x + "**" + y + "**" + z) == Format(x) + [Wrap(Format(y), Bold)] + Format(z)
  {
    var text := x + "**" + y + "**" + z;
    var i, j := |x|, |x| + 2 + |y|;
    var sp := Span(i, i + 2, j, j + 2);
    assert FirstMatch(text) == Some((DoubleStar, sp)) by {
      BoldBetweenMatch(x, y, z);
    }
    StarPieces(x, y, z);
    assert Format(text[..i]) == Format(x);
    assert Format(text[i + 2..j]) == Format(y);
    assert Format(text[j + 2..]) == Format(z);
    FormatStep(text, DoubleStar, sp, Format(x), Format(y), Format(z));
  }

  lemma TextsOfThree(a: TextNode, b: TextNode, c: TextNode)
    ensures Texts([a, b, c]) == a.text + b.text + c.text
  {
    assert [a, b, c][1..] == [b, c];
    assert [b, c][1..] == [c];
    assert [c][1..] == [];
    assert Texts([c]) == c.text + "" == c.text;
  }

  /** The bold search finds the whole of `**inner**` when the inner text holds no star. */
  lemma BoldAroundMatch(inner: string)
    requires '`' !in inner && '*' !in inner && '\n' !in inner
    ensures FirstMatch("**" + inner + "**") == Some((DoubleStar, Span(0, 2, |inner| + 2, |inner| + 4)))
  {
    var text := "**" + inner + "**";
    var n := |inner|;
    assert Search(Backtick, text, 0).None? by {
      assert '`' !in text;
      NoMarkNoSearch(Backtick, text);
    }
    assert Search(DoubleStar, text, 0) == Some(Span(0, 2, n + 2, n + 4)) by {
      assert text[2..n + 2] == inner;
      assert text[0] == '*' && text[1] == '*' && text[n + 2] == '*' && text[n + 3] == '*';
      SliceLacks(text, 2, n + 2, '*');
      SliceLacks(text, 2, n + 2, '\n');
      SearchFinds(DoubleStar, text, 0, n + 2);
    }
  }

  /**
   * A whole text in double stars, with no backtick and no star inside, is
   * one bold node holding the inner text with its own formatting dropped.
   */
  lemma BoldAround(inner: string)
    requires '`' !in inner && '*' !in inner && '\n' !in inner
    ensures Format("**" + inner + "**") == [TextNode(Texts(Format(inner)), Bold, None)]
  {
    var text := "**" + inner + "**";
    var n := |inner|;
    var sp := Span(0, 2, n + 2, n + 4);
    assert FirstMatch(text) == Some((DoubleStar, sp)) by {
      BoldAroundMatch(inner);
    }
    assert text[2..n + 2] == inner && text[n + 4..] == "";
    FormatStep(text, DoubleStar, sp, [], Format(inner), []);
    WrapCollapses(inner, Bold);
  }

  /**
   * Bold around italic collapses: `**x _y_ z**` is one bold node holding
   * `x + y + z`, the underscores lost (`**a _b_ c**` gives `"a b c"`).
   */
  lemma BoldAroundItalicCollapses(x: string, y: string, z: string)
    requires PlainWord(x) && PlainWord(y) && PlainWord(z)
    ensures Format("**" + (x + "_" + y + "_" + z) + "**") == [TextNode(x + y + z, Bold, None)]
  {
    var inner := x + "_" + y + "_" + z;
    var parts := [TextNode(x, Normal, None), TextNode(y, Italic, None), TextNode(z, Normal, None)];
    assert Texts(Format(inner)) == x + y + z by {
      ItalicBetween(x, y, z);
      TextsOfThree(parts[0], parts[1], parts[2]);
    }
    assert '`' !in inner && '*' !in inner && '\n' !in inner by {
      AbsentFromThree('`', x, y, z, "_");
      AbsentFromThree('*', x, y, z, "_");
      AbsentFromThree('\n', x, y, z, "_");
    }
    BoldAround(inner);
  }

  /** The code search skips a prefix without backticks and closes at the next backtick. */
  lemma CodeFirstMatch(before: string, code: string, after: string)
    requires '`' !in before && '`' !in code && '\n' !in code
    ensures FirstMatch(before + "`" + code + "`" + after)
         == Some((Backtick, Span(|before|, |before| + 1, |before| + 1 + |code|, |before| + 2 + |code|)))
  {
    var text := before + "`" + code + "`" + after;
    var i, j := |before|, |before| + 1 + |code|;
    assert text[0..i] == before && text[i + 1..j] == code;
    assert text[i] == '`' && text[j] == '`';
    SliceLacks(text, 0, i, '`');
    SliceLacks(text, i + 1, j, '`');
    SliceLacks(text, i + 1, j, '\n');
    SearchFinds(Backtick, text, i, j);
  }

  /**
   * Code is looked for first: a code span is split off although the text
   * before it may hold bold or italic markers that start earlier.
   */
  lemma CodeFirst(before: string, code: string, after: string)
    requires '`' !in before && '`' !in code && '\n' !in code
    requires before != "" && after != ""
    ensures Format(before + "`" + code + "`" + after) == Format(before) + [Wrap(Format(code), Code)] + Format(after)
  {
    var text := before + "`" + code + "`" + after;
    var i, j := |before|, |before| + 1 + |code|;
    var sp := Span(i, i + 1, j, j + 1);
    assert FirstMatch(text) == Some((Backtick, sp)) by {
      CodeFirstMatch(before, code, after);
    }
    assert text[..i] == before && text[i + 1..j] == code && text[j + 1..] == after;
    FormatStep(text, Backtick, sp, Format(before), Format(code), Format(after));
  }

  /**
   * Priority is by type, not position: in `x _y_ w` followed by a code span,
   * the code span is resolved first and the italic span then in the text
   * before it (``a _i_ `c` b`` gives `a `, italic `i`, ` `, code `c`, ` b`).
   */
  lemma CodeBeforeEarlierItalic(x: string, y: string, w: string, c: string, z: string)
    requires PlainWord(x) && PlainWord(y) && PlainWord(w) && PlainWord(c) && PlainWord(z)
    ensures Format((x + "_" + y + "_" + w) + "`" + c + "`" + z)
         == [TextNode(x, Normal, None), TextNode(y, Italic, None), TextNode(w, Normal, None)]
            + [TextNode(c, Code, None)] + [TextNode(z, Normal, None)]
  {
    var before := x + "_" + y + "_" + w;
    assert '`' !in before by {
      AbsentFromThree('`', x, y, w, "_");
    }
    CodeFirst(before, c, z);
    ItalicBetween(x, y, w);
    NoDelimitersUnchanged(c);
    NoDelimitersUnchanged(z);
  }

  // ---------------------------------------------------------------------------
  // The recursion as the source runs it

  function TotalLen(nodes: seq<TextNode>): nat {
    if nodes == [] then 0 else |nodes[0].text| + TotalLen(nodes[1..])
  }

  lemma {:induction false} TotalLenBound(nodes: seq<TextNode>, i: nat)
    requires i < |nodes|
    ensures |nodes[i].text| <= TotalLen(nodes)
  {
    if i > 0 {
      TotalLenBound(nodes[1..], i - 1);
    }
  }

  lemma TotalLenSingle(text: string)
    ensures TotalLen([TextNode(text, Normal, None)]) == |text|
  {
    assert [TextNode(text, Normal, None)][1..] == [];
  }

  /** `recursively_format_nodes`. */
  method RecursivelyFormatNodes(nodes: seq<TextNode>) returns (formatted: seq<TextNode>)
    ensures formatted == FormatNodes(nodes)
    decreases TotalLen(nodes), 1
  {
    formatted := [];
    for i := 0 to |nodes|
      invariant formatted == FormatNodes(nodes[..i])
    {
      var node := nodes[i];
      assert nodes[..i + 1][..i] == nodes[..i];
      if node.textType != Normal {
        formatted := formatted + [node];
        continue;
      }
      var text := node.text;
      TotalLenBound(nodes, i);
      var m := Search(Backtick, text, 0);
      if m.Some? {
        var more := RecursivelyFormatNodesFromMatch(text, m.value, Code, Backtick);
        formatted := formatted + more;
        continue;
      }
      m := Search(DoubleStar, text, 0);
      if m.Some? {
        var more := RecursivelyFormatNodesFromMatch(text, m.value, Bold, DoubleStar);
        formatted := formatted + more;
        continue;
      }
      m := Search(Underscore, text, 0);
      if m.Some? {
        var more := RecursivelyFormatNodesFromMatch(text, m.value, Italic, Underscore);
        formatted := formatted + more;
        continue;
      }
      formatted := formatted + [TextNode(text, Normal, None)];
    }
    assert nodes[..|nodes|] == nodes;
  }

  /** `recursively_format_nodes_from_match`. */
  method RecursivelyFormatNodesFromMatch(text: string, m: Span, textType: TextType, delimiter: Delimiter)
    returns (nodes: seq<TextNode>)
    requires WellSpan(m, |text|) && textType == KindOf(delimiter)
    ensures nodes == FromMatch(text, delimiter, m)
    decreases |text|, 0
  {
    var before := text[..m.start];
    var matchedText := text[m.innerStart..m.innerEnd];
    var after := text[m.end..];
    nodes := [];
    if before != "" {
      FormatNodesSingle(before);
      TotalLenSingle(before);
      var more := RecursivelyFormatNodes([TextNode(before, Normal, None)]);
      nodes := nodes + more;
    }
    ghost var head := nodes;
    FormatNodesSingle(matchedText);
    TotalLenSingle(matchedText);
    var innerNodes := RecursivelyFormatNodes([TextNode(matchedText, Normal, None)]);
    ghost var wrapped := Wrap(innerNodes, textType);
    if |innerNodes| == 1 {
      innerNodes := innerNodes[0 := innerNodes[0].(textType := textType)];
      nodes := nodes + [innerNodes[0]];
    } else {
      var joined := JoinTexts(innerNodes);
      nodes := nodes + [TextNode(joined, textType, None)];
    }
    assert nodes == head + [wrapped];
    ghost var middle := nodes;
    if after != "" {
      FormatNodesSingle(after);
      TotalLenSingle(after);
      var more := RecursivelyFormatNodes([TextNode(after, Normal, None)]);
      nodes := nodes + more;
    }
    assert nodes == middle + (if after != "" then Format(after) else []);
  }

  /** `''.join(n.text for n in nodes)`. */
  method JoinTexts(nodes: seq<TextNode>) returns (joined: string)
    ensures joined == Texts(nodes)
  {
    joined := "";
    for i := 0 to |nodes|
      invariant joined + Texts(nodes[i..]) == Texts(nodes)
    {
      assert nodes[i..][1..] == nodes[i + 1..];
      joined := joined + nodes[i].text;
    }
  }
}
