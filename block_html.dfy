/**
 * The block builders of `markdown_to_blocks.py` and `markdown_to_html_node`:
 * each block becomes one child of a `div`, chosen by its block type.
 */
module BlockHtml {
  import opened Wrappers
  import opened Strings
  import opened Html
  import opened TextNodes
  import opened BlockTypes
  import opened Blocks
  import Inline

  /** `[text_node_to_html_node(n) for n in text_to_textnodes(text)]`. */
  function Spans(text: string): (r: seq<Node>)
    ensures forall k :: 0 <= k < |r| ==> WellFormed(r[k])
  {
    var nodes := Inline.TextToTextNodes(text);
    seq(|nodes|, k requires 0 <= k < |nodes| => TextNodeToHtmlNode(nodes[k]))
  }

  // ---------------------------------------------------------------------------
  // Builders

  /** `create_paragraph_node`: the lines of the block run together with spaces. */
  function ParagraphNode(block: string): Node {
    Parent(Some("p"), Spans(ReplaceChar(block, '\n', ' ')), [])
  }

  /** `min(stripped.count("#"), 6)`: every `#` of the left-stripped block counts, not only the leading run. */
  function HeadingLevel(block: string): (level: nat)
    ensures level <= 6 && level <= |LStrip(block)|
  {
    var n := CountChar(LStrip(block), '#');
    if n < 6 then n else 6
  }

  /** `f"h{level}"`. */
  function HeadingTag(level: nat): string
    requires level <= 9
  {
    "h" + [('0' as int + level) as char]
  }

  /** `stripped[level:].strip()`: exactly `level` characters are dropped. */
  function HeadingContent(block: string): string {
    Strip(LStrip(block)[HeadingLevel(block)..])
  }

  /** `create_heading_node`. */
  function HeadingNode(block: string): Node {
    Parent(Some(HeadingTag(HeadingLevel(block))), Spans(HeadingContent(block)), [])
  }

  /** `line.lstrip("> ").strip()`. */
  function QuoteLine(line: string): string {
    Strip(LStripChars(line, {'>', ' '}))
  }

  function QuoteLines(lines: seq<string>): (r: seq<string>)
    ensures |r| == |lines| && forall k :: 0 <= k < |lines| ==> r[k] == QuoteLine(lines[k])
  {
    seq(|lines|, k requires 0 <= k < |lines| => QuoteLine(lines[k]))
  }

  /** The quote's lines, prefixes removed, joined with single spaces. */
  function QuoteContent(block: string): string {
    Join(QuoteLines(SplitLines(block)), " ")
  }

  /** `create_quote_node`. */
  function QuoteNode(block: string): Node {
    Parent(Some("blockquote"), Spans(QuoteContent(block)), [])
  }

  /** `lines[1:-1] if lines[0].startswith("```") else lines`. */
  function CodeLines(lines: seq<string>): seq<string>
    requires lines != []
  {
    if StartsWith(lines[0], "```") then
      if |lines| >= 2 then lines[1..|lines| - 1] else []
    else lines
  }

  /** `create_code_node`; the source indexes the first line, so an empty block is outside its domain. */
  function CodeNode(block: string): Node
    requires SplitLines(block) != []
  {
    Parent(Some("pre"), [Leaf(Some("code"), Some(Join(CodeLines(SplitLines(block)), "\n")), [])], [])
  }

  /** `line.lstrip("- ").strip()`. */
  function UnorderedItem(line: string): string {
    Strip(LStripChars(line, {'-', ' '}))
  }

  /** `re.sub(r"^\d+\.\s*", "", line)`: digits and a dot at the start, with the whitespace after them, go. */
  function DropOrderedMarker(line: string): string {
    var k := LeadingCount(line, Digits);
    if k >= 1 && k < |line| && line[k] == '.' then LStrip(line[k + 1..]) else line
  }

  function OrderedItem(line: string): string {
    Strip(DropOrderedMarker(line))
  }

  function UnorderedItems(lines: seq<string>): (r: seq<string>)
    ensures |r| == |lines| && forall k :: 0 <= k < |lines| ==> r[k] == UnorderedItem(lines[k])
  {
    seq(|lines|, k requires 0 <= k < |lines| => UnorderedItem(lines[k]))
  }

  function OrderedItems(lines: seq<string>): (r: seq<string>)
    ensures |r| == |lines| && forall k :: 0 <= k < |lines| ==> r[k] == OrderedItem(lines[k])
  {
    seq(|lines|, k requires 0 <= k < |lines| => OrderedItem(lines[k]))
  }

  /** `[item for item in items if item]`. */
  function NonEmpty(items: seq<string>): (r: seq<string>)
    ensures |r| <= |items|
    ensures forall x :: x in r <==> x in items && x != ""
    ensures (forall k :: 0 <= k < |items| ==> items[k] != "") ==> r == items
  {
    if items == [] then []
    else (if items[0] != "" then [items[0]] else []) + NonEmpty(items[1..])
  }

  /** `ParentNode(tag="li", children=...)` for one item. */
  function ListItem(item: string): Node {
    Parent(Some("li"), Spans(item), [])
  }

  function ListNode(tag: string, items: seq<string>): Node {
    var kept := NonEmpty(items);
    Parent(Some(tag), seq(|kept|, k requires 0 <= k < |kept| => ListItem(kept[k])), [])
  }

  /** `create_unordered_list_node`. */
  function UnorderedListNode(block: string): Node {
    ListNode("ul", UnorderedItems(SplitLines(block)))
  }

  /** `create_ordered_list_node`. */
  function OrderedListNode(block: string): Node {
    ListNode("ol", OrderedItems(SplitLines(block)))
  }

  /** A code block is never empty, so `create_code_node` always has a first line to test. */
  lemma CodeBlockHasLines(block: string)
    requires BlockToBlockType(block) == BlockType.Code
    ensures SplitLines(block) != []
  {
    CodeIsFenced(block);
    assert block != [];
    SplitLinesNonEmpty(block);
  }

  /** The builder `markdown_to_html_node` dispatches to for the block's type. */
  function BlockNode(block: string): Node {
    match BlockToBlockType(block)
    case Heading => HeadingNode(block)
    case Paragraph => ParagraphNode(block)
    case Code() => CodeBlockHasLines(block); CodeNode(block)
    case Quote => QuoteNode(block)
    case UnorderedList => UnorderedListNode(block)
    case OrderedList => OrderedListNode(block)
  }

  function BlockNodes(blocks: seq<string>): (r: seq<Node>)
    ensures |r| == |blocks|
  {
    if blocks == [] then [] else BlockNodes(blocks[..|blocks| - 1]) + [BlockNode(blocks[|blocks| - 1])]
  }

  /** `markdown_to_html_node`: a `div` holding the blocks' nodes. */
  function MarkdownToHtmlNode(markdown: string): Node {
    Parent(Some("div"), BlockNodes(MarkdownToBlocks(markdown)), [])
  }

  /** `markdown_to_html_node` as the source runs it: a `div` filled by `add_child`, one block at a time. */
  method BuildHtmlNode(markdown: string) returns (parent: ParentNode)
    ensures fresh(parent)
    ensures parent.AsNode() == MarkdownToHtmlNode(markdown)
  {
    var blocks := SegmentBlocks(markdown);
    parent := new ParentNode(Some("div"), [], []);
    var i := 0;
    while i < |blocks|
      invariant 0 <= i <= |blocks|
      invariant parent.tag == Some("div") && parent.props == []
      invariant parent.children == BlockNodes(blocks[..i])
    {
      var node := BlockNode(blocks[i]);
      BlockNodesSnoc(blocks, i);
      parent.AddChild(node);
      i := i + 1;
    }
    assert parent.children == BlockNodes(blocks) by {
      assert blocks[..i] == blocks;
    }
  }

  lemma BlockNodesSnoc(blocks: seq<string>, i: int)
    requires 0 <= i < |blocks|
    ensures BlockNodes(blocks[..i + 1]) == BlockNodes(blocks[..i]) + [BlockNode(blocks[i])]
  {
    assert blocks[..i + 1][..i] == blocks[..i];
  }

  // ---------------------------------------------------------------------------
  // Properties of the tree

  /** The tag each block type is given, independently of how its children are built. */
  function BlockTag(block: string): string {
    match BlockToBlockType(block)
    case Heading => HeadingTag(HeadingLevel(block))
    case Paragraph => "p"
    case Code() => "pre"
    case Quote => "blockquote"
    case UnorderedList => "ul"
    case OrderedList => "ol"
  }

  lemma {:induction false} BlockNodesAt(blocks: seq<string>, k: int)
    requires 0 <= k < |blocks|
    ensures BlockNodes(blocks)[k] == BlockNode(blocks[k])
  {
    if k < |blocks| - 1 {
      BlockNodesAt(blocks[..|blocks| - 1], k);
    }
  }

  /** The root is a `div` with exactly one child per block, in block order, each tagged for its block's type. */
  lemma OneChildPerBlock(markdown: string)
    ensures MarkdownToHtmlNode(markdown).tag == Some("div")
    ensures |MarkdownToHtmlNode(markdown).children| == |MarkdownToBlocks(markdown)|
    ensures forall k :: 0 <= k < |MarkdownToBlocks(markdown)| ==>
      MarkdownToHtmlNode(markdown).children[k].tag == Some(BlockTag(MarkdownToBlocks(markdown)[k]))
  {
    var blocks := MarkdownToBlocks(markdown);
    forall k | 0 <= k < |blocks|
      ensures MarkdownToHtmlNode(markdown).children[k].tag == Some(BlockTag(blocks[k]))
    {
      BlockNodesAt(blocks, k);
      BlockNodeTag(blocks[k]);
    }
  }

  lemma BlockNodeTag(block: string)
    ensures BlockNode(block).tag == Some(BlockTag(block))
  {
  }

  lemma BlockNodeWellFormed(block: string)
    ensures WellFormed(BlockNode(block))
  {
    match BlockToBlockType(block)
    case UnorderedList => ListNodeWellFormed("ul", UnorderedItems(SplitLines(block)));
    case OrderedList => ListNodeWellFormed("ol", OrderedItems(SplitLines(block)));
    case _ =>
  }

  lemma ListNodeWellFormed(tag: string, items: seq<string>)
    ensures WellFormed(ListNode(tag, items))
  {
    var kept := NonEmpty(items);
    forall k | 0 <= k < |kept| ensures WellFormed(ListItem(kept[k])) {
    }
  }

  /** The filter keeps order: filtering a concatenation concatenates the filtered parts. */
  lemma {:induction false} NonEmptyAppend(a: seq<string>, b: seq<string>)
    ensures NonEmpty(a + b) == NonEmpty(a) + NonEmpty(b)
  {
    if a == [] {
      assert a + b == b;
    } else {
      assert (a + b)[0] == a[0];
      assert (a + b)[1..] == a[1..] + b;
      NonEmptyAppend(a[1..], b);
    }
  }

  /** The filter drops every empty item and keeps every other item as often as it occurs. */
  lemma {:induction false} NonEmptyMultiset(items: seq<string>)
    ensures multiset(NonEmpty(items)) == multiset(items)["" := 0]
  {
    forall x | true
      ensures multiset(NonEmpty(items))[x] == multiset(items)["" := 0][x]
    {
      NonEmptyCount(items, x);
    }
  }

  lemma {:induction false} NonEmptyCount(items: seq<string>, x: string)
    ensures multiset(NonEmpty(items))[x] == if x == "" then 0 else multiset(items)[x]
  {
    if items != [] {
      var head, tail := items[0], items[1..];
      NonEmptyCount(tail, x);
      assert multiset(items)[x] == multiset([head])[x] + multiset(tail)[x] by {
        assert items == [head] + tail;
      }
      var kept := if head != "" then [head] else [];
      assert multiset(NonEmpty(items))[x] == multiset(kept)[x] + multiset(NonEmpty(tail))[x] by {
        assert NonEmpty(items) == kept + NonEmpty(tail);
      }
    }
  }

  /** An empty item anywhere in the list is dropped, and nothing else about the list changes. */
  lemma ListNodeDropsEmpty(tag: string, a: seq<string>, b: seq<string>)
    ensures ListNode(tag, a + [""] + b) == ListNode(tag, a + b)
  {
    NonEmptyAppend(a + [""], b);
    NonEmptyAppend(a, [""]);
    NonEmptyAppend(a, b);
    assert NonEmpty([""]) == [] by { assert [""][1..] == []; }
    assert NonEmpty(a) + [] == NonEmpty(a);
  }

  lemma {:induction false} BlockNodesWellFormed(blocks: seq<string>)
    ensures forall k :: 0 <= k < |blocks| ==> WellFormed(BlockNodes(blocks)[k])
  {
    forall k | 0 <= k < |blocks| ensures WellFormed(BlockNodes(blocks)[k]) {
      BlockNodesAt(blocks, k);
      BlockNodeWellFormed(blocks[k]);
    }
  }

  /** Rendering of the converted document never fails: every leaf has a value and every parent a tag. */
  lemma ConversionRenders(markdown: string)
    ensures ToHtml(MarkdownToHtmlNode(markdown)).Ok?
  {
    BlockNodesWellFormed(MarkdownToBlocks(markdown));
    ToHtmlOkIff(MarkdownToHtmlNode(markdown));
  }

  /** A block starting `"- "` is built by the unordered-list builder. */
  lemma DashBlockNode(block: string)
    requires StartsWith(block, "- ")
    ensures BlockNode(block) == UnorderedListNode(block)
  {
    UnorderedListIff(block);
  }

  /** Text that is one clean block converts to a `div` holding that block's node alone. */
  lemma OneBlockDocument(block: string)
    requires CleanBlock(block)
    ensures MarkdownToHtmlNode(block) == Parent(Some("div"), [BlockNode(block)], [])
  {
    assert MarkdownToBlocks(block) == [block] by {
      assert AllClean([block]);
      ResegmentClean([block]);
      assert Join([block], "\n\n") == block;
    }
    assert BlockNodes([block]) == [BlockNode(block)] by {
      assert [block][..0] == [];
    }
  }

  /** Empty or whitespace-only text converts to an empty `div`. */
  lemma BlankMarkdownRendersEmptyDiv(markdown: string)
    requires forall i :: 0 <= i < |markdown| ==> markdown[i] in Whitespace
    ensures ToHtml(MarkdownToHtmlNode(markdown)) == Ok("<div></div>")
  {
    assert MarkdownToHtmlNode(markdown) == Parent(Some("div"), [], []) by {
      WhitespaceOnlyHasNoBlocks(markdown);
    }
    EmptyDivRenders();
  }

  lemma EmptyDivRenders()
    ensures ToHtml(Parent(Some("div"), [], [])) == Ok("<div></div>")
  {
    EmptyParentRenders("div", []);
    PlainElement("div", "");
    assert "<" + "div" + ">" + "" + "</" + "div" + ">" == "<div></div>";
  }

  /** A parent without attributes and with one child renders that child between its tags. */
  lemma OneChildRenders(tag: string, child: Node, inner: string)
    requires ToHtml(child) == Ok(inner)
    ensures ToHtml(Parent(Some(tag), [child], [])) == Ok("<" + tag + ">" + inner + "</" + tag + ">")
  {
    assert ToHtml(Parent(Some(tag), [child], [])) == Ok(Element(tag, [], inner)) by {
      EmptyParentRenders(tag, []);
      AppendedChildRendersLast(tag, [], child, [], "", inner);
      assert [] + [child] == [child];
      assert "" + inner == inner;
    }
    PlainElement(tag, inner);
  }

  /** A parent without attributes and with two children renders them in order between its tags. */
  lemma TwoChildrenRender(tag: string, c1: Node, c2: Node, h1: string, h2: string)
    requires ToHtml(c1) == Ok(h1) && ToHtml(c2) == Ok(h2)
    ensures ToHtml(Parent(Some(tag), [c1, c2], [])) == Ok(Element(tag, [], h1 + h2))
  {
    assert ToHtml(Parent(Some(tag), [c1], [])) == Ok(Element(tag, [], h1)) by {
      EmptyParentRenders(tag, []);
      AppendedChildRendersLast(tag, [], c1, [], "", h1);
      assert [] + [c1] == [c1] && "" + h1 == h1;
    }
    AppendedChildRendersLast(tag, [c1], c2, [], h1, h2);
    assert [c1] + [c2] == [c1, c2];
  }

  // ---------------------------------------------------------------------------
  // Properties of the builders

  /** A heading block's level lies in 1..6, so its tag is one of `h1` to `h6`. */
  lemma HeadingLevelRange(block: string)
    requires BlockToBlockType(block) == Heading
    ensures 1 <= HeadingLevel(block) <= 6
  {
    HeadingIff(block);
    var s := LStrip(block);
    assert s[0] == '#';
    assert '#' in s;
  }

  function Hashes(n: nat): (r: string)
    ensures |r| == n && forall i :: 0 <= i < n ==> r[i] == '#'
  {
    seq(n, i => '#')
  }

  lemma {:induction false} HashesCount(n: nat)
    ensures multiset(Hashes(n))['#'] == n
  {
    if n > 0 {
      HashesCount(n - 1);
      assert Hashes(n) == Hashes(n - 1) + ['#'];
    }
  }

  /**
   * The usual heading: a run of one to six `#`, a space and a text without `#`
   * gives the heading of that level holding the stripped text.
   */
  lemma HeadingOfHashes(n: nat, text: string)
    requires 1 <= n <= 6 && '#' !in text
    ensures HeadingNode(Hashes(n) + " " + text) == Parent(Some(HeadingTag(n)), Spans(Strip(text)), [])
  {
    HeadingOfHashesParts(n, text);
  }

  lemma HeadingOfHashesParts(n: nat, text: string)
    requires 1 <= n <= 6 && '#' !in text
    ensures HeadingLevel(Hashes(n) + " " + text) == n
    ensures HeadingContent(Hashes(n) + " " + text) == Strip(text)
  {
    var block := Hashes(n) + " " + text;
    HashesLead(n, text);
    assert HeadingLevel(block) == n by {
      HashesThenText(n, text);
    }
    assert LStrip(block)[n..] == " " + text by {
      HashesRest(n, text);
    }
    StripLeadingSpace(text);
  }

  lemma HashesRest(n: nat, text: string)
    ensures (Hashes(n) + " " + text)[n..] == " " + text
  {
  }

  lemma HashesLead(n: nat, text: string)
    requires 1 <= n
    ensures LStrip(Hashes(n) + " " + text) == Hashes(n) + " " + text
  {
    var block := Hashes(n) + " " + text;
    assert block[0] == '#';
    StripFirst(block);
  }

  lemma HashesThenText(n: nat, text: string)
    requires '#' !in text
    ensures CountChar(Hashes(n) + " " + text, '#') == n
  {
    assert multiset(Hashes(n) + " " + text) == multiset(Hashes(n)) + multiset(" ") + multiset(text);
    HashesCount(n);
    assert multiset(text)['#'] == 0;
  }

  lemma StripLeadingSpace(text: string)
    ensures Strip(" " + text) == Strip(text)
  {
    assert " " + text == [' '] + text;
    LStripCons(' ', text, Whitespace);
  }

  /**
   * A `#` after the leading run also counts towards the level: `"# C#"`
   * becomes an `h2` holding `"C#"`.
   */
  lemma HeadingCountsEveryHash(w: string)
    requires w != [] && '#' !in w && w[0] !in Whitespace
    ensures HeadingLevel("# " + w + "#") == 2 && HeadingContent("# " + w + "#") == w + "#"
  {
    var block := "# " + w + "#";
    assert LStrip(block) == block by {
      StripFirst(block);
    }
    assert HeadingLevel(block) == 2 by {
      assert multiset(block) == multiset("# ") + multiset(w) + multiset("#");
      assert multiset(w)['#'] == 0;
    }
    assert block[2..] == w + "#";
    StripUnchanged(w + "#");
  }

  /** The line starting `"```" + info` and the closing fence are dropped; the body is kept verbatim, without inline parsing. */
  lemma CodeFencesDropped(info: string, body: string)
    requires '\n' !in info
    ensures SplitLines("```" + info + "\n" + body + "\n```") != []
    ensures CodeNode("```" + info + "\n" + body + "\n```") == Parent(Some("pre"), [Leaf(Some("code"), Some(body), [])], [])
  {
    var first := "```" + info;
    var block := first + "\n" + body + "\n```";
    assert block == first + ['\n'] + (body + ['\n'] + "```");
    SplitConcat(first, body + ['\n'] + "```", '\n');
    SplitConcat(body, "```", '\n');
    SplitWithout(first, '\n');
    SplitWithout("```", '\n');
    var lines := [first] + Split(body, '\n') + ["```"];
    assert Split(block, '\n') == lines;
    SplitLinesWhole(block);
    assert StartsWith(lines[0], "```");
    assert lines[1..|lines| - 1] == Split(body, '\n');
    JoinSplit(body, '\n');
  }

  /** Rendered, a fenced code block is its body inside `<pre><code>`. */
  lemma CodeBlockRenders(info: string, body: string)
    requires '\n' !in info
    ensures SplitLines("```" + info + "\n" + body + "\n```") != []
    ensures ToHtml(CodeNode("```" + info + "\n" + body + "\n```")) == Ok("<pre><code>" + body + "</code></pre>")
  {
    CodeFencesDropped(info, body);
    PreCodeRenders(body);
  }

  lemma PreCodeRenders(body: string)
    ensures ToHtml(Parent(Some("pre"), [Leaf(Some("code"), Some(body), [])], [])) == Ok("<pre><code>" + body + "</code></pre>")
  {
    var leaf := Leaf(Some("code"), Some(body), []);
    var code := "<code>" + body + "</code>";
    assert ToHtml(leaf) == Ok(code) by {
      PlainElement("code", body);
      CodeTags(body);
    }
    OneChildRenders("pre", leaf, code);
    PreTags(body);
  }

  lemma CodeTags(x: string)
    ensures "<" + "code" + ">" + x + "</" + "code" + ">" == "<code>" + x + "</code>"
  {
  }

  lemma PreTags(x: string)
    ensures "<" + "pre" + ">" + ("<code>" + x + "</code>") + "</" + "pre" + ">" == "<pre><code>" + x + "</code></pre>"
  {
  }
}

/**
 * The quote, list and paragraph builders recover the items a block of their
 * kind is written with.
 */
module BlockItems {
  import opened Wrappers
  import opened Strings
  import opened Html
  import opened BlockTypes
  import opened BlockHtml

  /** A line of item text as it stands in a block: not empty, stripped, one line. */
  predicate ItemText(t: string) {
    t != "" && Strip(t) == t && '\n' !in t
  }

  /** The block lines `prefix + t`, one per item. */
  function Prefixed(prefix: string, ts: seq<string>): (r: seq<string>)
    ensures |r| == |ts| && forall k :: 0 <= k < |ts| ==> r[k] == prefix + ts[k]
  {
    seq(|ts|, k requires 0 <= k < |ts| => prefix + ts[k])
  }

  /** The `li` nodes of the items, in order. */
  function ListItems(ts: seq<string>): (r: seq<Node>)
    ensures |r| == |ts| && forall k :: 0 <= k < |ts| ==> r[k] == ListItem(ts[k])
  {
    seq(|ts|, k requires 0 <= k < |ts| => ListItem(ts[k]))
  }

  lemma ItemTextFirst(t: string)
    requires ItemText(t)
    ensures t[0] !in Whitespace
  {
    StripSlice(t);
  }

  /** Lines of item text joined with line feeds split back into those lines. */
  lemma LinesOfItems(lines: seq<string>)
    requires lines != []
    requires forall k :: 0 <= k < |lines| ==> lines[k] != "" && '\n' !in lines[k]
    ensures SplitLines(Join(lines, "\n")) == lines
  {
    SplitLinesJoin(lines);
  }

  /** `"> " + t` loses exactly its marker. */
  lemma QuoteLineOf(t: string)
    requires ItemText(t) && t[0] != '>'
    ensures QuoteLine("> " + t) == t
  {
    var cs := {'>', ' '};
    ItemTextFirst(t);
    assert "> " + t == ['>'] + ([' '] + t);
    LStripCons('>', [' '] + t, cs);
    LStripCons(' ', t, cs);
    LStripStops(t, cs);
  }

  /** A quote written `"> " + t` line by line is its items joined with single spaces. */
  lemma QuoteOfItems(ts: seq<string>)
    requires ts != [] && forall k :: 0 <= k < |ts| ==> ItemText(ts[k]) && ts[k][0] != '>'
    ensures QuoteContent(Join(Prefixed("> ", ts), "\n")) == Join(ts, " ")
  {
    var lines := Prefixed("> ", ts);
    LinesOfItems(lines);
    forall k | 0 <= k < |ts| ensures QuoteLine(lines[k]) == ts[k] {
      QuoteLineOf(ts[k]);
    }
    assert QuoteLines(lines) == ts;
  }

  /** `"- " + t` loses exactly its marker. */
  lemma UnorderedItemOf(t: string)
    requires ItemText(t) && t[0] != '-'
    ensures UnorderedItem("- " + t) == t
  {
    var cs := {'-', ' '};
    ItemTextFirst(t);
    assert "- " + t == ['-'] + ([' '] + t);
    LStripCons('-', [' '] + t, cs);
    LStripCons(' ', t, cs);
    LStripStops(t, cs);
  }

  /** An unordered list written `"- " + t` line by line has one `li` per item, in order. */
  lemma UnorderedListOfItems(ts: seq<string>)
    requires ts != [] && forall k :: 0 <= k < |ts| ==> ItemText(ts[k]) && ts[k][0] != '-'
    ensures UnorderedListNode(Join(Prefixed("- ", ts), "\n")) == Parent(Some("ul"), ListItems(ts), [])
  {
    var lines := Prefixed("- ", ts);
    LinesOfItems(lines);
    forall k | 0 <= k < |ts| ensures UnorderedItem(lines[k]) == ts[k] {
      UnorderedItemOf(ts[k]);
    }
    assert UnorderedItems(lines) == ts;
  }

  /** A run of ASCII digits: the number of an ordered-list item. */
  predicate Number(m: string) {
    m != "" && forall i :: 0 <= i < |m| ==> m[i] in Digits
  }

  /** `m + ". " + t` loses exactly its number, dot and space. */
  lemma OrderedItemOf(m: string, t: string)
    requires Number(m) && ItemText(t)
    ensures OrderedItem(m + ". " + t) == t
  {
    ItemTextFirst(t);
    DropOrderedMarkerOf(m, t);
  }

  lemma DropOrderedMarkerOf(m: string, t: string)
    requires Number(m) && t != [] && t[0] !in Whitespace
    ensures DropOrderedMarker(m + ". " + t) == t
  {
    var line := m + ". " + t;
    var rest := ['.'] + ([' '] + t);
    var k := |m|;
    assert line == m + rest;
    LeadingDigits(m, rest);
    assert line[k] == '.';
    assert line[k + 1..] == [' '] + t;
    LStripCons(' ', t, Whitespace);
    LStripStops(t, Whitespace);
  }

  lemma {:induction false} LeadingDigits(m: string, rest: string)
    requires forall i :: 0 <= i < |m| ==> m[i] in Digits
    requires rest != [] && rest[0] !in Digits
    ensures LeadingCount(m + rest, Digits) == |m|
  {
    if m != [] {
      assert (m + rest)[1..] == m[1..] + rest;
      LeadingDigits(m[1..], rest);
    } else {
      assert m + rest == rest;
    }
  }

  /** The block lines `ms[k] + ". " + ts[k]`. */
  function Numbered(ms: seq<string>, ts: seq<string>): (r: seq<string>)
    requires |ms| == |ts|
    ensures |r| == |ts| && forall k :: 0 <= k < |ts| ==> r[k] == ms[k] + ". " + ts[k]
  {
    seq(|ts|, k requires 0 <= k < |ts| => ms[k] + ". " + ts[k])
  }

  /** An ordered list written `n. t` line by line has one `li` per item, in order, whatever the numbers. */
  lemma OrderedListOfItems(ms: seq<string>, ts: seq<string>)
    requires |ms| == |ts| && ts != []
    requires forall k :: 0 <= k < |ts| ==> Number(ms[k]) && ItemText(ts[k])
    ensures OrderedListNode(Join(Numbered(ms, ts), "\n")) == Parent(Some("ol"), ListItems(ts), [])
  {
    var lines := Numbered(ms, ts);
    LinesOfItems(lines);
    forall k | 0 <= k < |ts| ensures OrderedItem(lines[k]) == ts[k] {
      OrderedItemOf(ms[k], ts[k]);
    }
    assert OrderedItems(lines) == ts;
  }

  /** Line feeds become spaces: a paragraph's lines run together as one line. */
  lemma {:induction false} ReplaceJoin(lines: seq<string>)
    requires forall k :: 0 <= k < |lines| ==> '\n' !in lines[k]
    ensures ReplaceChar(Join(lines, "\n"), '\n', ' ') == Join(lines, " ")
  {
    if |lines| > 1 {
      var head, rest := lines[0], lines[1..];
      var tail := Join(rest, "\n");
      assert Join(lines, "\n") == head + "\n" + tail;
      assert Join(lines, " ") == head + " " + Join(rest, " ");
      assert ReplaceChar(tail, '\n', ' ') == Join(rest, " ") by {
        ReplaceJoin(rest);
      }
      ReplaceAroundLineFeed(head, tail);
    } else if |lines| == 1 {
      ReplaceWithout(lines[0]);
    }
  }

  lemma ReplaceAroundLineFeed(head: string, tail: string)
    requires '\n' !in head
    ensures ReplaceChar(head + "\n" + tail, '\n', ' ') == head + " " + ReplaceChar(tail, '\n', ' ')
  {
    var lf := "\n" + tail;
    assert head + "\n" + tail == head + lf;
    assert ReplaceChar(head + lf, '\n', ' ') == ReplaceChar(head, '\n', ' ') + ReplaceChar(lf, '\n', ' ') by {
      ReplaceAppend(head, lf);
    }
    assert ReplaceChar(lf, '\n', ' ') == ReplaceChar("\n", '\n', ' ') + ReplaceChar(tail, '\n', ' ') by {
      ReplaceAppend("\n", tail);
    }
    assert ReplaceChar(head, '\n', ' ') == head by {
      ReplaceWithout(head);
    }
    assert ReplaceChar("\n", '\n', ' ') == " ";
  }

  lemma {:induction false} ReplaceAppend(a: string, b: string)
    ensures ReplaceChar(a + b, '\n', ' ') == ReplaceChar(a, '\n', ' ') + ReplaceChar(b, '\n', ' ')
  {
    if a == [] {
      assert a + b == b;
    } else {
      assert (a + b)[1..] == a[1..] + b;
      ReplaceAppend(a[1..], b);
    }
  }

  lemma {:induction false} ReplaceWithout(a: string)
    requires '\n' !in a
    ensures ReplaceChar(a, '\n', ' ') == a
  {
    if a != [] {
      assert '\n' !in a[1..];
      ReplaceWithout(a[1..]);
    }
  }

  /** A paragraph of several lines holds the inline content of those lines joined with spaces. */
  lemma ParagraphOfLines(lines: seq<string>)
    requires forall k :: 0 <= k < |lines| ==> '\n' !in lines[k]
    ensures ParagraphNode(Join(lines, "\n")) == Parent(Some("p"), Spans(Join(lines, " ")), [])
  {
    ReplaceJoin(lines);
  }
}
