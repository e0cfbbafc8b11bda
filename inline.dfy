/**
 * `text_to_textnodes`: one NORMAL node holding the whole text is split at
 * images, then at links, and what is still NORMAL is formatted for code,
 * bold and italic.
 */
module Inline {
  import opened Wrappers
  import opened TextNodes
  import opened InlineLinks
  import E = InlineEmphasis

  function TextToTextNodes(text: string): seq<TextNode> {
    E.FormatNodes(SplitNodes(LinkPattern, SplitNodes(ImagePattern, [TextNode(text, Normal, None)])))
  }

  /** `text_to_textnodes`, one pass after the other. */
  method TextToTextNodesPasses(text: string) returns (nodes: seq<TextNode>)
    ensures nodes == TextToTextNodes(text)
  {
    nodes := [TextNode(text, Normal, None)];
    nodes := SplitNodesImages(nodes);
    nodes := SplitNodesLinks(nodes);
    nodes := E.RecursivelyFormatNodes(nodes);
  }

  /** The two splitting passes leave the text recoverable: re-rendering images and links gives it back. */
  lemma LinkPassesRoundTrip(text: string)
    ensures MarkdownOf(SplitNodes(LinkPattern, SplitNodes(ImagePattern, [TextNode(text, Normal, None)]))) == text
  {
    var start := [TextNode(text, Normal, None)];
    SplitNodesRoundTrip(ImagePattern, start);
    SplitNodesRoundTrip(LinkPattern, SplitNodes(ImagePattern, start));
    assert MarkdownOf(start) == text + MarkdownOf([]);
  }

  /** An empty text gives no node at all. */
  lemma EmptyTextGivesNothing()
    ensures TextToTextNodes("") == []
  {
    var start := [TextNode("", Normal, None)];
    SplitNodesSingle(ImagePattern, start[0]);
    SplitTextNormalsNonEmpty(ImagePattern, "");
    assert SplitNodes(LinkPattern, []) == [];
  }

  /** Every NORMAL node of the result is non-empty and holds no code, bold or italic match. */
  lemma ResultSettled(text: string)
    ensures E.Every(TextToTextNodes(text), E.Settled)
  {
    var start := [TextNode(text, Normal, None)];
    var images := SplitNodes(ImagePattern, start);
    SplitNodesSingle(ImagePattern, start[0]);
    SplitTextNormalsNonEmpty(ImagePattern, text);
    SplitNodesNormalsNonEmpty(LinkPattern, images);
    E.FormatNodesSettled(SplitNodes(LinkPattern, images));
  }

  /** Text free of every markup character comes back as one NORMAL node. */
  lemma PlainTextUnchanged(text: string)
    requires text != ""
    requires '[' !in text && '`' !in text && '*' !in text && '_' !in text
    ensures TextToTextNodes(text) == [TextNode(text, Normal, None)]
  {
    BracketFreeIsEmphasis(text);
    E.NoDelimitersUnchanged(text);
  }

  /** Without a `[` there is no image and no link: the text goes straight to the code, bold and italic pass. */
  lemma BracketFreeIsEmphasis(text: string)
    requires text != "" && '[' !in text
    ensures TextToTextNodes(text) == E.Format(text)
  {
    NoBracketUnsplit(ImagePattern, text);
    NoBracketUnsplit(LinkPattern, text);
    E.FormatNodesSingle(text);
  }
}
