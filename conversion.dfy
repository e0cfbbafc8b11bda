/**
 * Whole conversions: from markdown text through segmenting, classifying,
 * inline parsing and building to the rendered HTML.
 */
module Conversion {
  import opened Wrappers
  import opened Strings
  import opened Html
  import opened TextNodes
  import opened BlockTypes
  import opened Blocks
  import opened BlockHtml
  import opened BlockItems
  import Inline
  import E = InlineEmphasis

  /** Item text that holds no inline markup and does not start with a list marker. */
  predicate PlainItem(t: string) {
    ItemText(t) && t[0] != '-'
    && '[' !in t && '`' !in t && '*' !in t && '_' !in t
  }

  /** One rendered list item. */
  function ItemHtml(t: string): string {
    "<li>" + t + "</li>"
  }

  /** The `<li>` elements of the items, in order. */
  function ItemsHtml(ts: seq<string>): string {
    if ts == [] then "" else ItemsHtml(ts[..|ts| - 1]) + ItemHtml(ts[|ts| - 1])
  }

  /** A line `"- " + t` is a clean block line. */
  lemma MarkerLineClean(t: string)
    requires ItemText(t)
    ensures CleanLine("- " + t)
  {
    var line := "- " + t;
    StripSlice(t);
    assert line[|line| - 1] == t[|t| - 1];
    StripUnchanged(line);
  }

  /** Plain item text becomes one tagless leaf. */
  lemma PlainSpans(t: string)
    requires PlainItem(t)
    ensures Spans(t) == [Leaf(None, Some(t), [])]
  {
    Inline.PlainTextUnchanged(t);
  }

  lemma ListItemRenders(t: string)
    requires PlainItem(t)
    ensures ToHtml(ListItem(t)) == Ok(ItemHtml(t))
  {
    var leaf := Leaf(None, Some(t), []);
    assert ListItem(t) == Parent(Some("li"), [leaf], []) by {
      PlainSpans(t);
    }
    assert ToHtml(leaf) == Ok(t);
    OneChildRenders("li", leaf, t);
    LiTags(t);
  }

  lemma LiTags(x: string)
    ensures "<" + "li" + ">" + x + "</" + "li" + ">" == ItemHtml(x)
  {
  }

  lemma ListItemsSnoc(ts: seq<string>)
    requires ts != []
    ensures ListItems(ts) == ListItems(ts[..|ts| - 1]) + [ListItem(ts[|ts| - 1])]
  {
    var init := ts[..|ts| - 1];
    var a, b := ListItems(ts), ListItems(init);
    forall k | 0 <= k < |b| ensures a[k] == b[k] {
      assert a[k] == ListItem(ts[k]) && b[k] == ListItem(init[k]) && init[k] == ts[k];
    }
    SnocPointwise(a, b, ListItem(ts[|ts| - 1]));
  }

  lemma SnocPointwise(a: seq<Node>, b: seq<Node>, x: Node)
    requires |a| == |b| + 1 && a[|b|] == x
    requires forall k :: 0 <= k < |b| ==> a[k] == b[k]
    ensures a == b + [x]
  {
  }

  /** A list of plain items renders its `li` elements in order between the list tags. */
  lemma {:induction false} ListRenders(tag: string, ts: seq<string>)
    requires forall k :: 0 <= k < |ts| ==> PlainItem(ts[k])
    ensures ToHtml(Parent(Some(tag), ListItems(ts), [])) == Ok(Element(tag, [], ItemsHtml(ts)))
  {
    if ts == [] {
      EmptyParentRenders(tag, []);
    } else {
      var init := ts[..|ts| - 1];
      var last := ts[|ts| - 1];
      assert ToHtml(Parent(Some(tag), ListItems(init), [])) == Ok(Element(tag, [], ItemsHtml(init))) by {
        ListRenders(tag, init);
      }
      assert ToHtml(ListItem(last)) == Ok(ItemHtml(last)) by {
        ListItemRenders(last);
      }
      ListItemsSnoc(ts);
      AppendedChildRendersLast(tag, ListItems(init), ListItem(last), [], ItemsHtml(init), ItemHtml(last));
    }
  }

  /** The lines `"- " + t` joined with line feeds form one clean block. */
  lemma ListBlockClean(ts: seq<string>)
    requires ts != [] && forall k :: 0 <= k < |ts| ==> ItemText(ts[k])
    ensures CleanBlock(Join(Prefixed("- ", ts), "\n"))
    ensures StartsWith(Join(Prefixed("- ", ts), "\n"), "- ")
  {
    var lines := Prefixed("- ", ts);
    var block := Join(lines, "\n");
    MarkerLinesClean(ts);
    assert Split(block, '\n') == lines by {
      CleanLinesSplitJoin(lines);
    }
    assert StartsWith(block, lines[0]) by {
      JoinHead(lines, "\n");
    }
    assert lines[0] == "- " + ts[0];
  }

  lemma MarkerLinesClean(ts: seq<string>)
    requires forall k :: 0 <= k < |ts| ==> ItemText(ts[k])
    ensures CleanLines(Prefixed("- ", ts))
  {
    var lines := Prefixed("- ", ts);
    forall k | 0 <= k < |lines| ensures CleanLine(lines[k]) {
      MarkerLineClean(ts[k]);
    }
  }

  /** Clean lines joined with line feeds split back into themselves. */
  lemma CleanLinesSplitJoin(lines: seq<string>)
    requires lines != [] && CleanLines(lines)
    ensures Split(Join(lines, "\n"), '\n') == lines
  {
    assert "\n" == ['\n'];
    forall k | 0 <= k < |lines| ensures '\n' !in lines[k] {
      assert CleanLine(lines[k]);
    }
    SplitJoin(lines, '\n');
  }

  /** A join starts with its first part. */
  lemma JoinHead(parts: seq<string>, sep: string)
    requires parts != []
    ensures StartsWith(Join(parts, sep), parts[0])
  {
    if |parts| > 1 {
      assert Join(parts, sep) == parts[0] + (sep + Join(parts[1..], sep));
    }
  }

  lemma DivUl(x: string)
    ensures "<" + "div" + ">" + ("<" + "ul" + ">" + x + "</" + "ul" + ">") + "</" + "div" + ">"
         == "<div><ul>" + x + "</ul></div>"
  {
  }

  /** A block of `"- "` lines is an unordered list block and is built into a `ul` of its items. */
  lemma UnorderedListBlockNode(ts: seq<string>)
    requires ts != [] && forall k :: 0 <= k < |ts| ==> PlainItem(ts[k])
    ensures BlockNode(Join(Prefixed("- ", ts), "\n")) == Parent(Some("ul"), ListItems(ts), [])
  {
    var block := Join(Prefixed("- ", ts), "\n");
    assert BlockNode(block) == UnorderedListNode(block) by {
      ListBlockClean(ts);
      DashBlockNode(block);
    }
    assert UnorderedListNode(block) == Parent(Some("ul"), ListItems(ts), []) by {
      UnorderedListOfItems(ts);
    }
  }

  /** A document that is one unordered list of plain items converts to a `div` holding one `ul`. */
  lemma UnorderedListDocumentNode(ts: seq<string>)
    requires ts != [] && forall k :: 0 <= k < |ts| ==> PlainItem(ts[k])
    ensures MarkdownToHtmlNode(Join(Prefixed("- ", ts), "\n"))
         == Parent(Some("div"), [Parent(Some("ul"), ListItems(ts), [])], [])
  {
    var block := Join(Prefixed("- ", ts), "\n");
    ListBlockClean(ts);
    OneBlockDocument(block);
    UnorderedListBlockNode(ts);
  }

  /**
   * A document that is one unordered list of plain items renders as a `div`
   * holding a `ul` with one `li` per item, in order: `"- a\n- b"` gives
   * `<div><ul><li>a</li><li>b</li></ul></div>`.
   */
  lemma UnorderedListDocument(ts: seq<string>)
    requires ts != [] && forall k :: 0 <= k < |ts| ==> PlainItem(ts[k])
    ensures ToHtml(MarkdownToHtmlNode(Join(Prefixed("- ", ts), "\n")))
         == Ok("<div><ul>" + ItemsHtml(ts) + "</ul></div>")
  {
    var ul := Parent(Some("ul"), ListItems(ts), []);
    UnorderedListDocumentNode(ts);
    var inner := "<" + "ul" + ">" + ItemsHtml(ts) + "</" + "ul" + ">";
    assert ToHtml(ul) == Ok(inner) by {
      ListRenders("ul", ts);
      PlainElement("ul", ItemsHtml(ts));
    }
    OneChildRenders("div", ul, inner);
    DivUl(ItemsHtml(ts));
  }

  // ---------------------------------------------------------------------------
  // Paragraphs

  /** The HTML of a run of spans, one after the other. */
  function SpansHtml(ns: seq<TextNode>): string {
    if ns == [] then "" else SpansHtml(ns[..|ns| - 1]) + SpanHtml(ns[|ns| - 1])
  }

  /** The leaves of a run of spans, one per span. */
  function Leaves(ns: seq<TextNode>): (r: seq<Node>)
    ensures |r| == |ns| && forall k :: 0 <= k < |ns| ==> r[k] == TextNodeToHtmlNode(ns[k])
  {
    seq(|ns|, k requires 0 <= k < |ns| => TextNodeToHtmlNode(ns[k]))
  }

  lemma ParagraphLeaves(block: string)
    ensures ParagraphNode(block) == Parent(Some("p"), Leaves(Inline.TextToTextNodes(ReplaceChar(block, '\n', ' '))), [])
  {
    SpansAreLeaves(ReplaceChar(block, '\n', ' '));
  }

  lemma SpansAreLeaves(text: string)
    ensures Spans(text) == Leaves(Inline.TextToTextNodes(text))
  {
    var ns := Inline.TextToTextNodes(text);
    var a, b := Spans(text), Leaves(ns);
    assert |a| == |b|;
    forall k | 0 <= k < |a| ensures a[k] == b[k] {
    }
  }

  lemma LeavesSnoc(ns: seq<TextNode>)
    requires ns != []
    ensures Leaves(ns) == Leaves(ns[..|ns| - 1]) + [TextNodeToHtmlNode(ns[|ns| - 1])]
  {
    var init := ns[..|ns| - 1];
    var a, b := Leaves(ns), Leaves(init);
    forall k | 0 <= k < |b| ensures a[k] == b[k] {
      assert init[k] == ns[k];
    }
    SnocPointwise(a, b, TextNodeToHtmlNode(ns[|ns| - 1]));
  }

  /** A parent of span leaves renders the spans' HTML in order between its tags. */
  lemma {:induction false} LeavesRender(tag: string, ns: seq<TextNode>)
    ensures ToHtml(Parent(Some(tag), Leaves(ns), [])) == Ok(Element(tag, [], SpansHtml(ns)))
  {
    if ns == [] {
      EmptyParentRenders(tag, []);
    } else {
      var init := ns[..|ns| - 1];
      var last := ns[|ns| - 1];
      assert ToHtml(Parent(Some(tag), Leaves(init), [])) == Ok(Element(tag, [], SpansHtml(init))) by {
        LeavesRender(tag, init);
      }
      SpanRenders(last);
      LeavesSnoc(ns);
      AppendedChildRendersLast(tag, Leaves(init), TextNodeToHtmlNode(last), [], SpansHtml(init), SpanHtml(last));
    }
  }

  /**
   * A paragraph renders as its inline spans, in order, between `p` tags,
   * its line feeds read as spaces.
   */
  lemma ParagraphRenders(block: string)
    ensures ToHtml(ParagraphNode(block))
         == Ok("<p>" + SpansHtml(Inline.TextToTextNodes(ReplaceChar(block, '\n', ' '))) + "</p>")
  {
    var ns := Inline.TextToTextNodes(ReplaceChar(block, '\n', ' '));
    ParagraphLeaves(block);
    PTags(ParagraphNode(block), ns);
  }

  lemma PTags(n: Node, ns: seq<TextNode>)
    requires n == Parent(Some("p"), Leaves(ns), [])
    ensures ToHtml(n) == Ok("<p>" + SpansHtml(ns) + "</p>")
  {
    var inner := SpansHtml(ns);
    assert ToHtml(n) == Ok(Element("p", [], inner)) by {
      LeavesRender("p", ns);
    }
    assert Element("p", [], inner) == "<p>" + inner + "</p>" by {
      PlainTags("p", "<p>", "</p>", inner);
    }
  }

  lemma {:induction false} SpansHtmlAppend(a: seq<TextNode>, b: seq<TextNode>)
    ensures SpansHtml(a + b) == SpansHtml(a) + SpansHtml(b)
  {
    if b == [] {
      assert a + b == a;
    } else {
      var init, last := b[..|b| - 1], b[|b| - 1];
      assert SpansHtml(a + b) == SpansHtml(a + init) + SpanHtml(last) by {
        assert (a + b)[..|a + b| - 1] == a + init;
        assert (a + b)[|a + b| - 1] == last;
      }
      SpansHtmlAppend(a, init);
      StringAssoc(SpansHtml(a), SpansHtml(init), SpanHtml(last));
    }
  }

  lemma StringAssoc(x: string, y: string, z: string)
    ensures x + y + z == x + (y + z)
  {
  }

  lemma SpansHtmlOne(n: TextNode)
    ensures SpansHtml([n]) == SpanHtml(n)
  {
    assert [n][..0] == [];
  }

  lemma SpansHtmlThree(a: TextNode, b: TextNode, c: TextNode)
    ensures SpansHtml([a, b, c]) == SpanHtml(a) + SpanHtml(b) + SpanHtml(c)
  {
    assert [a, b, c] == [a] + [b] + [c];
    SpansHtmlAppend([a] + [b], [c]);
    SpansHtmlAppend([a], [b]);
    SpansHtmlOne(a);
    SpansHtmlOne(b);
    SpansHtmlOne(c);
  }

  /** Words of prose: no inline markup, no link or image, no line feed. */
  predicate Prose(s: string) {
    E.PlainWord(s) && '[' !in s
  }

  /** A first character that starts no heading, quote, code block or list. */
  predicate OpensParagraph(s: string) {
    s != "" && s[0] !in Whitespace && s[0] != '#' && s[0] != '>' && s[0] != '-' && s[0] != '`' && !IsDigit(s[0])
  }

  /** Text neither starting nor ending with whitespace. */
  predicate Trimmed(s: string) {
    s != "" && s[0] !in Whitespace && s[|s| - 1] !in Whitespace
  }

  /** A block whose first character starts no other kind of block is a paragraph. */
  lemma ParagraphBlockNode(block: string)
    requires OpensParagraph(block)
    ensures BlockNode(block) == ParagraphNode(block)
  {
    NotHeading(block);
    NotFenced(block);
    assert !StartsWith(block, "> ") && !StartsWith(block, "- ") by {
      if |block| >= 2 {
        assert block[..2][0] == block[0];
      }
    }
    assert !IsOrderedMarker(block);
    ParagraphIff(block);
  }

  /**
   * A document of two clean blocks separated by a blank line renders as a
   * `div` holding the two blocks' HTML, in order.
   */
  lemma TwoBlockDocument(b1: string, b2: string, h1: string, h2: string)
    requires CleanBlock(b1) && CleanBlock(b2)
    requires ToHtml(BlockNode(b1)) == Ok(h1) && ToHtml(BlockNode(b2)) == Ok(h2)
    ensures ToHtml(MarkdownToHtmlNode(b1 + "\n\n" + b2)) == Ok("<div>" + h1 + h2 + "</div>")
  {
    TwoBlockNodes(b1, b2);
    DivOfTwo(BlockNode(b1), BlockNode(b2), h1, h2);
  }

  lemma TwoBlockNodes(b1: string, b2: string)
    requires CleanBlock(b1) && CleanBlock(b2)
    ensures MarkdownToHtmlNode(b1 + "\n\n" + b2) == Parent(Some("div"), [BlockNode(b1), BlockNode(b2)], [])
  {
    TwoCleanBlocks(b1, b2);
    TwoBlockNodesInOrder(b1, b2);
  }

  lemma TwoCleanBlocks(b1: string, b2: string)
    requires CleanBlock(b1) && CleanBlock(b2)
    ensures MarkdownToBlocks(b1 + "\n\n" + b2) == [b1, b2]
  {
    var blocks := [b1, b2];
    assert Join(blocks, "\n\n") == b1 + "\n\n" + b2 by {
      assert blocks[1..] == [b2];
    }
    assert AllClean(blocks);
    ResegmentClean(blocks);
  }

  lemma TwoBlockNodesInOrder(b1: string, b2: string)
    ensures BlockNodes([b1, b2]) == [BlockNode(b1), BlockNode(b2)]
  {
    assert [b1, b2][..1] == [b1] && [b1][..0] == [];
  }

  lemma DivOfTwo(n1: Node, n2: Node, h1: string, h2: string)
    requires ToHtml(n1) == Ok(h1) && ToHtml(n2) == Ok(h2)
    ensures ToHtml(Parent(Some("div"), [n1, n2], [])) == Ok("<div>" + h1 + h2 + "</div>")
  {
    TwoChildrenRender("div", n1, n2, h1, h2);
    DivTags(h1 + h2);
    TextNodes.Regroup("<div>", h1, h2, "</div>");
  }

  lemma DivTags(inner: string)
    ensures Element("div", [], inner) == "<div>" + inner + "</div>"
  {
    PlainTags("div", "<div>", "</div>", inner);
  }

  /** Clean lines, joined with line feeds, form a clean block starting with the first line. */
  lemma LinesBlockClean(lines: seq<string>)
    requires lines != [] && forall k :: 0 <= k < |lines| ==> Trimmed(lines[k]) && '\n' !in lines[k]
    ensures CleanBlock(Join(lines, "\n")) && StartsWith(Join(lines, "\n"), lines[0])
  {
    TrimmedLinesClean(lines);
    JoinHead(lines, "\n");
    CleanLinesSplitJoin(lines);
  }

  lemma TrimmedLinesClean(lines: seq<string>)
    requires forall k :: 0 <= k < |lines| ==> Trimmed(lines[k]) && '\n' !in lines[k]
    ensures CleanLines(lines)
  {
    forall k | 0 <= k < |lines| ensures CleanLine(lines[k]) {
      StripUnchanged(lines[k]);
    }
  }

  /** A paragraph block renders the HTML of the spans of its text, between `p` tags. */
  lemma ParagraphHtml(block: string, text: string, ns: seq<TextNode>, inner: string)
    requires BlockNode(block) == ParagraphNode(block) && ReplaceChar(block, '\n', ' ') == text
    requires Inline.TextToTextNodes(text) == ns && SpansHtml(ns) == inner
    ensures ToHtml(BlockNode(block)) == Ok("<p>" + inner + "</p>")
  {
    ParagraphRenders(block);
  }

  /** Three clean lines, the first opening a paragraph, form a paragraph block whose text is the lines joined with spaces. */
  lemma ThreeLineParagraph(l1: string, l2: string, l3: string)
    requires Trimmed(l1) && Trimmed(l2) && Trimmed(l3) && OpensParagraph(l1)
    requires '\n' !in l1 && '\n' !in l2 && '\n' !in l3
    ensures var block := Join([l1, l2, l3], "\n");
      CleanBlock(block) && BlockNode(block) == ParagraphNode(block)
      && ReplaceChar(block, '\n', ' ') == l1 + " " + l2 + " " + l3
  {
    var lines := [l1, l2, l3];
    var block := Join(lines, "\n");
    assert CleanBlock(block) && block[0] == l1[0] by {
      LinesBlockClean(lines);
      assert block[..|l1|][0] == l1[0];
    }
    ParagraphBlockNode(block);
    ThreeLinesSpaced(l1, l2, l3);
  }

  lemma ThreeLinesSpaced(l1: string, l2: string, l3: string)
    requires '\n' !in l1 && '\n' !in l2 && '\n' !in l3
    ensures ReplaceChar(Join([l1, l2, l3], "\n"), '\n', ' ') == l1 + " " + l2 + " " + l3
  {
    var lines := [l1, l2, l3];
    assert Join(lines, " ") == l1 + " " + l2 + " " + l3 by {
      assert lines[1..] == [l2, l3] && [l2, l3][1..] == [l3];
      assert Join([l2, l3], " ") == l2 + " " + l3;
      assert Join(lines, " ") == l1 + " " + Join([l2, l3], " ");
    }
    ReplaceJoin(lines);
  }

  /** One clean line opening a paragraph is a paragraph block whose text is the line. */
  lemma OneLineParagraph(line: string)
    requires Trimmed(line) && OpensParagraph(line) && '\n' !in line
    ensures CleanBlock(line) && BlockNode(line) == ParagraphNode(line)
      && ReplaceChar(line, '\n', ' ') == line
  {
    assert Join([line], "\n") == line;
    LinesBlockClean([line]);
    ParagraphBlockNode(line);
    ReplaceWithout(line);
  }

  /** `x **y** z` over prose holds one bold span between two plain ones. */
  lemma BoldSpans(x: string, y: string, z: string)
    requires Prose(x) && Prose(y) && Prose(z)
    ensures Inline.TextToTextNodes(x + "**" + y + "**" + z)
         == [TextNode(x, Normal, None), TextNode(y, Bold, None), TextNode(z, Normal, None)]
  {
    var text := x + "**" + y + "**" + z;
    assert '[' !in text by {
      E.AbsentFromThree('[', x, y, z, "**");
    }
    Inline.BracketFreeIsEmphasis(text);
    E.BoldBetween(x, y, z);
  }

  lemma BoldSpansHtml(x: string, y: string, z: string)
    ensures SpansHtml([TextNode(x, Normal, None), TextNode(y, Bold, None), TextNode(z, Normal, None)])
         == x + "<b>" + y + "</b>" + z
  {
    var b := TextNode(y, Bold, None);
    SpansHtmlThree(TextNode(x, Normal, None), b, TextNode(z, Normal, None));
    assert SpanHtml(b) == "<b>" + y + "</b>";
  }

  /** `p _q_ w `c` v` over prose holds an italic span and a code span between plain ones. */
  lemma ItalicCodeSpans(p: string, q: string, w: string, c: string, v: string)
    requires Prose(p) && Prose(q) && Prose(w) && Prose(c) && Prose(v)
    ensures Inline.TextToTextNodes((p + "_" + q + "_" + w) + "`" + c + "`" + v)
         == [TextNode(p, Normal, None), TextNode(q, Italic, None), TextNode(w, Normal, None)]
            + [TextNode(c, TextType.Code, None)] + [TextNode(v, Normal, None)]
  {
    var before := p + "_" + q + "_" + w;
    var text := before + "`" + c + "`" + v;
    assert '[' !in text by {
      E.AbsentFromThree('[', p, q, w, "_");
      E.AbsentFromThree('[', before, c, v, "`");
    }
    Inline.BracketFreeIsEmphasis(text);
    E.CodeBeforeEarlierItalic(p, q, w, c, v);
  }

  lemma ItalicCodeSpansHtml(p: string, q: string, w: string, c: string, v: string)
    ensures SpansHtml([TextNode(p, Normal, None), TextNode(q, Italic, None), TextNode(w, Normal, None)]
                      + [TextNode(c, TextType.Code, None)] + [TextNode(v, Normal, None)])
         == p + "<i>" + q + "</i>" + w + "<code>" + c + "</code>" + v
  {
    var i := TextNode(q, Italic, None);
    var ns := [TextNode(p, Normal, None), i, TextNode(w, Normal, None)];
    var code, last := TextNode(c, TextType.Code, None), TextNode(v, Normal, None);
    var head := SpansHtml(ns);
    assert head == p + "<i>" + q + "</i>" + w by {
      SpansHtmlThree(ns[0], i, ns[2]);
      assert SpanHtml(i) == "<i>" + q + "</i>";
    }
    assert SpansHtml(ns + [code] + [last]) == head + SpanHtml(code) + SpanHtml(last) by {
      SpansHtmlAppend(ns + [code], [last]);
      SpansHtmlAppend(ns, [code]);
      SpansHtmlOne(code);
      SpansHtmlOne(last);
    }
    assert SpanHtml(code) == "<code>" + c + "</code>";
  }

  /**
   * A paragraph of three lines whose first holds one bold span, as in
   * `This is **bolded** paragraph` / `text in a p` / `tag here`: the lines
   * are joined with spaces and the bold span becomes a `b` element.
   */
  lemma BoldParagraph(x: string, y: string, z: string, l2: string, l3: string)
    requires Prose(x) && Prose(y) && Prose(z) && Prose(l2) && Prose(l3)
    requires OpensParagraph(x) && z[|z| - 1] !in Whitespace && Trimmed(l2) && Trimmed(l3)
    ensures var block := Join([x + "**" + y + "**" + z, l2, l3], "\n");
      CleanBlock(block)
      && ToHtml(BlockNode(block)) == Ok("<p>" + x + "<b>" + y + "</b>" + (z + " " + l2 + " " + l3) + "</p>")
  {
    var l1 := x + "**" + y + "**" + z;
    var block := Join([l1, l2, l3], "\n");
    var tail := z + " " + l2 + " " + l3;
    assert Trimmed(l1) && OpensParagraph(l1) && '\n' !in l1 by {
      assert l1[0] == x[0] && l1[|l1| - 1] == z[|z| - 1];
      E.AbsentFromThree('\n', x, y, z, "**");
    }
    ProseSpaced(z, l2, l3);
    ThreeLineParagraph(l1, l2, l3);
    JoinedAfterBold(x, y, z, l2, l3);
    var ns := [TextNode(x, Normal, None), TextNode(y, Bold, None), TextNode(tail, Normal, None)];
    BoldSpans(x, y, tail);
    BoldSpansHtml(x, y, tail);
    ParagraphHtml(block, x + "**" + y + "**" + tail, ns, x + "<b>" + y + "</b>" + tail);
    Wrapped5("<p>", x, "<b>", y, "</b>", tail, "</p>");
  }

  /** Prose joined with spaces is prose. */
  lemma ProseSpaced(a: string, b: string, c: string)
    requires Prose(a) && Prose(b) && Prose(c)
    ensures Prose(a + " " + b + " " + c)
  {
  }

  lemma Wrapped5(o: string, a: string, b: string, c: string, d: string, e: string, z: string)
    ensures o + (a + b + c + d + e) + z == o + a + b + c + d + e + z
  {
  }

  lemma Wrapped9(o: string, a: string, b: string, c: string, d: string, e: string,
                 f: string, g: string, h: string, i: string, z: string)
    ensures o + (a + b + c + d + e + f + g + h + i) + z == o + a + b + c + d + e + f + g + h + i + z
  {
  }

  lemma JoinedAfterBold(x: string, y: string, z: string, l2: string, l3: string)
    ensures (x + "**" + y + "**" + z) + " " + l2 + " " + l3 == x + "**" + y + "**" + (z + " " + l2 + " " + l3)
  {
  }

  /**
   * A one-line paragraph with an italic span and a later code span, as in
   * `This is another paragraph with _italic_ text and `code` here`.
   */
  lemma ItalicCodeParagraph(p: string, q: string, w: string, c: string, v: string)
    requires Prose(p) && Prose(q) && Prose(w) && Prose(c) && Prose(v)
    requires OpensParagraph(p) && v[|v| - 1] !in Whitespace
    ensures var block := (p + "_" + q + "_" + w) + "`" + c + "`" + v;
      CleanBlock(block)
      && ToHtml(BlockNode(block)) == Ok("<p>" + p + "<i>" + q + "</i>" + w + "<code>" + c + "</code>" + v + "</p>")
  {
    var before := p + "_" + q + "_" + w;
    var block := before + "`" + c + "`" + v;
    assert Trimmed(block) && OpensParagraph(block) && '\n' !in block by {
      assert block[0] == p[0] && block[|block| - 1] == v[|v| - 1];
      E.AbsentFromThree('\n', p, q, w, "_");
      E.AbsentFromThree('\n', before, c, v, "`");
    }
    OneLineParagraph(block);
    var ns := [TextNode(p, Normal, None), TextNode(q, Italic, None), TextNode(w, Normal, None)]
      + [TextNode(c, TextType.Code, None)] + [TextNode(v, Normal, None)];
    ItalicCodeSpans(p, q, w, c, v);
    ItalicCodeSpansHtml(p, q, w, c, v);
    ParagraphHtml(block, block, ns, p + "<i>" + q + "</i>" + w + "<code>" + c + "</code>" + v);
    Wrapped9("<p>", p, "<i>", q, "</i>", w, "<code>", c, "</code>", v, "</p>");
  }

  /**
   * Two paragraphs, the first of three lines with a bold span, the second
   * with an italic and a code span, render as two `p` elements in a `div`:
   * the document of the end-to-end conversion test in
   * `test_raw_to_textnode.py`, over any plain words in place of its own.
   */
  lemma ParagraphsDocument(x: string, y: string, z: string, l2: string, l3: string,
                           p: string, q: string, w: string, c: string, v: string)
    requires Prose(x) && Prose(y) && Prose(z) && Prose(l2) && Prose(l3)
    requires OpensParagraph(x) && z[|z| - 1] !in Whitespace && Trimmed(l2) && Trimmed(l3)
    requires Prose(p) && Prose(q) && Prose(w) && Prose(c) && Prose(v)
    requires OpensParagraph(p) && v[|v| - 1] !in Whitespace
    ensures ToHtml(MarkdownToHtmlNode(
              Join([x + "**" + y + "**" + z, l2, l3], "\n") + "\n\n" + ((p + "_" + q + "_" + w) + "`" + c + "`" + v)))
         == Ok("<div><p>" + (x + "<b>" + y + "</b>" + (z + " " + l2 + " " + l3))
               + "</p><p>" + (p + "<i>" + q + "</i>" + w + "<code>" + c + "</code>" + v) + "</p></div>")
  {
    var b1 := Join([x + "**" + y + "**" + z, l2, l3], "\n");
    var b2 := (p + "_" + q + "_" + w) + "`" + c + "`" + v;
    var tail := z + " " + l2 + " " + l3;
    var h1 := x + "<b>" + y + "</b>" + tail;
    var h2 := p + "<i>" + q + "</i>" + w + "<code>" + c + "</code>" + v;
    BoldParagraph(x, y, z, l2, l3);
    ItalicCodeParagraph(p, q, w, c, v);
    assert ToHtml(BlockNode(b1)) == Ok("<p>" + h1 + "</p>") by {
      Wrapped5("<p>", x, "<b>", y, "</b>", tail, "</p>");
    }
    assert ToHtml(BlockNode(b2)) == Ok("<p>" + h2 + "</p>") by {
      Wrapped9("<p>", p, "<i>", q, "</i>", w, "<code>", c, "</code>", v, "</p>");
    }
    TwoBlockDocument(b1, b2, "<p>" + h1 + "</p>", "<p>" + h2 + "</p>");
    DivParagraphs(h1, h2);
  }

  lemma DivParagraphs(a: string, b: string)
    ensures "<div>" + ("<p>" + a + "</p>") + ("<p>" + b + "</p>") + "</div>"
         == "<div><p>" + a + "</p><p>" + b + "</p></div>"
  {
    assert "<div>" + "<p>" == "<div><p>";
    assert "</p>" + "<p>" == "</p><p>";
    assert "</p>" + "</div>" == "</p></div>";
  }

  /** An indentation: whitespace within one line. */
  predicate Indent(ind: string) {
    forall i :: 0 <= i < |ind| ==> ind[i] in Whitespace && ind[i] != '\n'
  }

  /** Five pieces without line feeds, joined with line feeds, split back into themselves. */
  lemma SplitFive(a1: string, a2: string, a3: string, a4: string, a5: string)
    requires '\n' !in a1 && '\n' !in a2 && '\n' !in a3 && '\n' !in a4 && '\n' !in a5
    ensures Split(a1 + "\n" + a2 + "\n" + a3 + "\n" + a4 + "\n" + a5, '\n') == [a1, a2, a3, a4, a5]
  {
    var x2 := a1 + "\n" + a2;
    var x3 := x2 + "\n" + a3;
    var x4 := x3 + "\n" + a4;
    assert "\n" == ['\n'];
    SplitWithout(a1, '\n');
    SplitWithout(a2, '\n');
    SplitWithout(a3, '\n');
    SplitWithout(a4, '\n');
    SplitWithout(a5, '\n');
    SplitConcat(a1, a2, '\n');
    SplitConcat(x2, a3, '\n');
    SplitConcat(x3, a4, '\n');
    SplitConcat(x4, a5, '\n');
  }

  lemma SplitTwoBlocks(l1: string, l2: string, l3: string, l4: string)
    requires '\n' !in l1 && '\n' !in l2 && '\n' !in l3 && '\n' !in l4
    ensures Split(Join([l1, l2, l3], "\n") + "\n\n" + l4, '\n') == [l1, l2, l3, "", l4]
  {
    var b1 := Join([l1, l2, l3], "\n");
    SplitAtBlankLine(b1, l4);
    assert Split(b1, '\n') == [l1, l2, l3] by {
      assert "\n" == ['\n'];
      SplitJoin([l1, l2, l3], '\n');
    }
    SplitWithout(l4, '\n');
  }

  /** Lines that differ only by an indentation, or not at all, strip alike. */
  lemma StripIndentedLines(ind: string, s1: seq<string>, s2: seq<string>)
    requires Indent(ind) && |s1| == |s2|
    requires forall k :: 0 <= k < |s1| ==> s1[k] == ind + s2[k] || s1[k] == s2[k]
    ensures StripAll(s1) == StripAll(s2)
  {
    forall k | 0 <= k < |s1| ensures StripAll(s1)[k] == StripAll(s2)[k] {
      StripAllAt(s1, k);
      StripAllAt(s2, k);
      StripIndented(ind, s2[k]);
    }
  }

  lemma PaddedRegroup(m: string, ind: string)
    ensures "\n" + m + "\n\n" + ind == "" + "\n" + (m + "\n" + "" + "\n" + ind)
  {
    assert "\n\n" == "\n" + "" + "\n";
  }

  lemma IndentedLines(ind: string, l1: string, l2: string, l3: string, l4: string)
    ensures "\n" + ind + l1 + "\n" + ind + l2 + "\n" + ind + l3 + "\n\n" + ind + l4 + "\n\n" + ind
         == "\n" + ((ind + l1) + "\n" + (ind + l2) + "\n" + (ind + l3) + "\n" + "" + "\n" + (ind + l4)) + "\n\n" + ind
  {
    assert "\n\n" == "\n" + "" + "\n";
  }

  /** The blank line that opens the text and the indented line that closes it add no block. */
  lemma IndentedPadding(ind: string, m: string)
    requires Indent(ind)
    ensures MarkdownToBlocks("\n" + m + "\n\n" + ind) == MarkdownToBlocks(m)
  {
    var closed := m + "\n" + "";
    var padded := closed + "\n" + ind;
    assert Blank(ind) by {
      StripIndented(ind, "");
      assert ind + "" == ind;
    }
    calc {
      MarkdownToBlocks("\n" + m + "\n\n" + ind);
      { PaddedRegroup(m, ind); }
      MarkdownToBlocks("" + "\n" + padded);
      { BlankLineBefore("", padded); }
      MarkdownToBlocks(padded);
      { BlankLineAfter(closed, ind); }
      MarkdownToBlocks(closed);
      { BlankLineAfter(m, ""); }
      MarkdownToBlocks(m);
    }
  }

  /** Indenting every line of two paragraphs changes none of their blocks. */
  lemma IndentedParagraphLines(ind: string, l1: string, l2: string, l3: string, l4: string)
    requires Indent(ind) && '\n' !in l1 && '\n' !in l2 && '\n' !in l3 && '\n' !in l4
    ensures MarkdownToBlocks((ind + l1) + "\n" + (ind + l2) + "\n" + (ind + l3) + "\n" + "" + "\n" + (ind + l4))
         == MarkdownToBlocks(Join([l1, l2, l3], "\n") + "\n\n" + l4)
  {
    var m := (ind + l1) + "\n" + (ind + l2) + "\n" + (ind + l3) + "\n" + "" + "\n" + (ind + l4);
    var s1 := [ind + l1, ind + l2, ind + l3, "", ind + l4];
    var s2 := [l1, l2, l3, "", l4];
    SplitFive(ind + l1, ind + l2, ind + l3, "", ind + l4);
    SplitTwoBlocks(l1, l2, l3, l4);
    StripIndentedLines(ind, s1, s2);
    StrippedLinesSameBlocks(m, Join([l1, l2, l3], "\n") + "\n\n" + l4);
  }

  /**
   * Indenting every line, opening with a blank line and closing with a blank
   * line and an indented empty one (the shape of a triple-quoted literal)
   * changes no block: the text has the blocks of its two paragraphs.
   */
  lemma IndentedDocumentBlocks(ind: string, l1: string, l2: string, l3: string, l4: string)
    requires Indent(ind) && '\n' !in l1 && '\n' !in l2 && '\n' !in l3 && '\n' !in l4
    ensures MarkdownToBlocks("\n" + ind + l1 + "\n" + ind + l2 + "\n" + ind + l3 + "\n\n" + ind + l4 + "\n\n" + ind)
         == MarkdownToBlocks(Join([l1, l2, l3], "\n") + "\n\n" + l4)
  {
    IndentedLines(ind, l1, l2, l3, l4);
    IndentedPadding(ind, (ind + l1) + "\n" + (ind + l2) + "\n" + (ind + l3) + "\n" + "" + "\n" + (ind + l4));
    IndentedParagraphLines(ind, l1, l2, l3, l4);
  }

  /**
   * The end-to-end conversion test of `test_raw_to_textnode.py` in its own
   * shape: the two paragraphs written in a triple-quoted literal, every line
   * indented by `ind`, with a blank line before and after, render as
   * `<div><p>…<b>…</b>…</p><p>…<i>…</i>…<code>…</code>…</p></div>`.
   */
  lemma IndentedParagraphsDocument(ind: string, x: string, y: string, z: string, l2: string, l3: string,
                                   p: string, q: string, w: string, c: string, v: string)
    requires Indent(ind)
    requires Prose(x) && Prose(y) && Prose(z) && Prose(l2) && Prose(l3)
    requires OpensParagraph(x) && z[|z| - 1] !in Whitespace && Trimmed(l2) && Trimmed(l3)
    requires Prose(p) && Prose(q) && Prose(w) && Prose(c) && Prose(v)
    requires OpensParagraph(p) && v[|v| - 1] !in Whitespace
    ensures ToHtml(MarkdownToHtmlNode(
              "\n" + ind + (x + "**" + y + "**" + z) + "\n" + ind + l2 + "\n" + ind + l3
              + "\n\n" + ind + ((p + "_" + q + "_" + w) + "`" + c + "`" + v) + "\n\n" + ind))
         == Ok("<div><p>" + (x + "<b>" + y + "</b>" + (z + " " + l2 + " " + l3))
               + "</p><p>" + (p + "<i>" + q + "</i>" + w + "<code>" + c + "</code>" + v) + "</p></div>")
  {
    var l1 := x + "**" + y + "**" + z;
    var l4 := (p + "_" + q + "_" + w) + "`" + c + "`" + v;
    assert '\n' !in l1 && '\n' !in l4 by {
      E.AbsentFromThree('\n', x, y, z, "**");
      E.AbsentFromThree('\n', p, q, w, "_");
      E.AbsentFromThree('\n', p + "_" + q + "_" + w, c, v, "`");
    }
    IndentedDocumentBlocks(ind, l1, l2, l3, l4);
    ParagraphsDocument(x, y, z, l2, l3, p, q, w, c, v);
  }
}
