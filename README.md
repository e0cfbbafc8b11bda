# Markdown to HTML: a verified model of the converter core

This project models the core of a small static site generator that turns
markdown text into an HTML node tree and serialises that tree. The model
covers four stages:

- **HTML nodes** (`htmlnode.py`). A node is a leaf (`LeafNode`) or a parent
  (`ParentNode`). Its attributes are rendered sorted by key. Rendering fails
  on a leaf without a value or a parent without a tag. `markdown_to_html_node`
  fills a `div` one `add_child` at a time, so `ParentNode` is also a class
  whose `children` field is updated in place.
- **Block classification** (`blocktype.py`). `block_to_block_type` assigns
  one of six block types: heading, quote, code, unordered list, ordered list
  or paragraph. It tests them in the source's order, with the source's string
  tests. The regular expression `^\d+\.\s` is written out as a scan.
- **Inline parsing** (`raw_to_textnode.py`). This stage covers:
  - `split_nodes_delimiter`;
  - the image and link patterns, with `re.findall` and `re.finditer` as a
    leftmost, non-overlapping scan;
  - `split_nodes_images` and `split_nodes_links`;
  - the recursive code/bold/italic formatter, which applies the lazy
    patterns `` `(.*?)` ``, `\*\*(.*?)\*\*` and `_(.*?)_` in priority order;
  - `text_to_textnodes`.
- **Blocks and the document** (`markdown_to_blocks.py`). This stage covers
  `markdown_to_blocks`, the six `create_*_node` builders and
  `markdown_to_html_node`.

Pure code is modelled as functions with lemmas. The loops of the source are
methods, each proved equal to the function that specifies it:

| method | source loop |
|---|---|
| `Html.Render` | the child loop of `ParentNode.to_html` |
| `InlineDelimiter.SplitNodesDelimiterLoop` | `split_nodes_delimiter` |
| `InlineLinks.SplitNodesBy` and `InlineLinks.SplitTextBy` | the two `finditer` loops |
| `InlineEmphasis.RecursivelyFormatNodes` and `InlineEmphasis.RecursivelyFormatNodesFromMatch` | the formatter |
| `Blocks.SegmentBlocks` | `markdown_to_blocks` |
| `BlockHtml.BuildHtmlNode` | `markdown_to_html_node` |

The main results are:

- Rendering succeeds exactly on well-formed trees, and every converted
  document renders.
- Attribute output does not depend on dictionary insertion order.
- Image/link splitting loses nothing: re-emitting the markdown of the nodes
  gives the text back. Its typed nodes are exactly what `extract_markdown_*`
  returns.
- Delimiter splitting round-trips.
- The formatter picks code before bold before italic, takes the leftmost
  shortest match, and leaves no NORMAL node that still holds a match.
- Segmenting is idempotent, and clean blocks survive a join-and-resegment.
- Several of the tests' documents have their exact rendering proved.

Files:

| file | module | contents |
|---|---|---|
| `wrappers.dfy` | `Wrappers` | `Option` and `Result` |
| `strings.dfy` | `Strings` | The Python `str` methods the core uses: `strip`, `lstrip`, one-character `split`, `join`, `splitlines`, `replace`, `count` |
| `htmlnode.dfy` | `Html` | Nodes, attribute sorting, rendering, the `ParentNode` class |
| `textnode.dfy` | `TextNodes` | Text nodes and `text_node_to_html_node` |
| `blocktype.dfy` | `BlockTypes` | `block_to_block_type` |
| `inline_delimiter.dfy` | `InlineDelimiter` | `split_nodes_delimiter` |
| `inline_links.dfy` | `InlineLinks` | Image and link extraction and splitting |
| `inline_emphasis.dfy` | `InlineEmphasis` | The recursive code/bold/italic formatter |
| `inline.dfy` | `Inline` | `text_to_textnodes` |
| `blocks.dfy` | `Blocks` | `markdown_to_blocks` |
| `block_html.dfy` | `BlockHtml`, `BlockItems` | The block builders and `markdown_to_html_node` |
| `conversion.dfy` | `Conversion` | Whole documents, from markdown to HTML text |

## Model

| member | source | states |
|---|---|---|
| Html.StrLeTotal | src/htmlnode.py:14 | Any two keys are ordered one way or the other, so `sorted` on keys is defined on every dictionary |
| Html.StrLeAntisymmetric | src/htmlnode.py:14 | Two keys each at most the other are equal |
| Html.StrLeTransitive | src/htmlnode.py:14 | The key order is transitive |
| Html.InsertByKey | src/htmlnode.py:14 | Inserting an item adds exactly that item to the multiset of items |
| Html.InsertByKeySorted | src/htmlnode.py:14 | Inserting into a key-sorted list keeps it key-sorted |
| Html.SortByKey | src/htmlnode.py:14 | The result is sorted by key and is a permutation of the items |
| Html.SortedPermutationUnique | src/htmlnode.py:14 | With distinct keys, there is only one key-sorted arrangement of a set of items |
| Html.DistinctKeysPermutation | src/htmlnode.py:14 | A permutation of a dictionary's items still has distinct keys |
| Html.PropsToHtmlIsSorted | src/htmlnode.py:13-14 | `props_to_html` renders the attributes in the unique key-sorted order |
| Html.PropsToHtmlOrderIndependent | src/test_htmlnode.py:6-19 | Dictionaries with the same items render the same attribute string, whatever their insertion order |
| Html.ConcatResultsOkIff | src/htmlnode.py:45-52 | Concatenating the children's output succeeds if and only if every child renders |
| Html.ToHtmlOkIff | src/htmlnode.py:23-54 | `to_html` succeeds if and only if every leaf has a value and every parent has a tag, all the way down |
| Html.LeafWithoutValueFails | src/htmlnode.py:24-25 | A leaf whose value is None raises the missing-value error, whatever its tag |
| Html.TaglessLeafIsVerbatim | src/htmlnode.py:27-28 | A leaf without a tag renders as its bare value, and its attributes are ignored |
| Html.ParentWithoutTagFails | src/htmlnode.py:40-41 | A parent without a tag raises the missing-tag error, whatever its children |
| Html.EmptyParentRenders | src/test_htmlnode.py:44-45 | A parent with no children renders as its opening and closing tags, with nothing between them |
| Html.AppendedChildRendersLast | src/htmlnode.py:45-54 | Appending a child appends that child's output just before the closing tag |
| Html.ElementInjective | src/htmlnode.py:54 | Equal element output with the same tag and attributes means equal inner HTML |
| Html.PlainElement | src/htmlnode.py:54 | An element without attributes is its opening tag, its inner HTML and its closing tag, with nothing else |
| Html.Render | src/htmlnode.py:39-54 | The loop over the children yields the result of `to_html`: the first child error, or the tag around the concatenation |
| Html.ConcatResultsStep | src/htmlnode.py:46-48 | One loop step: a rendered child extends the accumulated HTML, and a failing child fixes the result as its error |
| Html.ConcatResultsErrSticks | src/htmlnode.py:46-48 | Once a prefix of the children fails, the whole concatenation fails with that error |
| Html.ParentNode.constructor | src/htmlnode.py:32-34 | A new parent node holds the given tag, children and attributes |
| Html.ParentNode.AddChild | src/htmlnode.py:36-37 | `add_child` appends the child at the end and leaves the tag and attributes unchanged |
| Html.ParentNode.AsNode | src/htmlnode.py:32-34 | The object's value as a tree is a parent with its current tag, children and attributes |
| TextNodes.TextNodeToHtmlNode | src/test_htmlnode.py:69-105 | Every span becomes a leaf with a value. Only NORMAL spans are tagless, and every span except an image keeps its text as the value |
| TextNodes.SpanLeafRenders | src/htmlnode.py:23-30 | A span's leaf always renders without error |
| TextNodes.LinkRendersAnchor | src/test_htmlnode.py:94-99 | A link renders as `<a href="url">text</a>` |
| TextNodes.ImageRendersAltFirst | src/test_htmlnode.py:101-105 | An image renders with `alt` before `src`, the sorted order of its attribute dictionary |
| TextNodes.ImagePropsSorted | src/htmlnode.py:14 | Sorting the image attributes `{src, alt}` gives `alt`, then `src` |
| TextNodes.SpanRenders | src/test_htmlnode.py:69-105 | Each span renders as its type asks: NORMAL as the bare text, BOLD as `<b>text</b>`, ITALIC as `<i>text</i>`, CODE as `<code>text</code>`, LINK as an anchor with its `href`, IMAGE as an `img` with `alt` before `src` |
| BlockTypes.OrderedMarkerIff | src/blocktype.py:29 | The scan for `^\d+\.\s` holds exactly when the block starts with one or more digits, a dot, then a whitespace character |
| BlockTypes.HeadingIff | src/blocktype.py:21-22 | A block is a heading if and only if it starts with `#` once leading whitespace is removed |
| BlockTypes.QuoteIff | src/blocktype.py:23-24 | A block is a quote if and only if it starts with `> ` |
| BlockTypes.NotHeading | src/blocktype.py:21 | A block whose first character is neither whitespace nor `#` fails the heading test |
| BlockTypes.NotFenced | src/blocktype.py:25 | A block whose first character is neither whitespace nor a backtick is not fenced |
| BlockTypes.UnorderedListIff | src/blocktype.py:27-28 | A block is an unordered list if and only if it starts with `- ` |
| BlockTypes.OrderedListIff | src/blocktype.py:29-30 | A block is an ordered list if and only if it starts with digits, a dot and a whitespace character |
| BlockTypes.OneLineIsNotCode | src/blocktype.py:25-26 | A one-line block is never code: the code test needs at least two lines |
| BlockTypes.ParagraphIff | src/blocktype.py:20-32 | A block is a paragraph exactly when none of the five earlier tests holds |
| BlockTypes.CodeIsFenced | src/blocktype.py:25-26 | A code block has at least two stripped lines, and its first and last lines open with a fence |
| BlockTypes.FencedIsCode | src/blocktype.py:25-26 | A fenced block that fails the heading and quote tests is code |
| Strings.CountChar | src/blocktype.py:21 | `count` is at most the length, and it is zero exactly when the character is absent |
| Strings.LeadingCount | src/blocktype.py:29 | The leading run holds only characters of the set and stops at the first character outside it |
| Strings.LStripChars | src/markdown_to_blocks.py:69 | `lstrip(chars)` removes exactly the longest prefix of characters from the set |
| Strings.RStripChars | src/markdown_to_blocks.py:16 | `rstrip` removes exactly the longest suffix of whitespace |
| Strings.StripSlice | src/markdown_to_blocks.py:16 | `strip` returns a slice of the input that neither begins nor ends with whitespace |
| Strings.StripEmptyIff | src/markdown_to_blocks.py:16 | A line strips to empty if and only if it is all whitespace |
| Strings.StripIdempotent | src/markdown_to_blocks.py:18 | Stripping twice is stripping once |
| Strings.StripKeepsAbsent | src/markdown_to_blocks.py:18 | Stripping introduces no new character |
| Strings.StripUnchanged | src/markdown_to_blocks.py:18 | A line with no whitespace at either end is its own strip |
| Strings.StripIndented | src/markdown_to_blocks.py:16-18 | Whitespace put in front of a line changes neither its `lstrip` nor its `strip` |
| Strings.Split | src/markdown_to_blocks.py:11 | `split(c)` always returns at least one piece, and no piece contains the separator |
| Strings.JoinSplit | src/markdown_to_blocks.py:11 | Joining the pieces of `split(c)` with `c` gives the string back |
| Strings.SplitJoin | src/markdown_to_blocks.py:18 | Splitting a join of separator-free pieces gives the pieces back |
| Strings.JoinAppend | src/markdown_to_blocks.py:18 | Joining two non-empty lists is joining each and putting the separator between them |
| Strings.SplitConcat | src/markdown_to_blocks.py:11 | Splitting `a + c + b` gives the pieces of `a` followed by the pieces of `b` |
| Strings.SplitLines | src/blocktype.py:20 | `splitlines` gives no line for the empty string, and no line contains a line feed |
| Strings.SplitLinesNonEmpty | src/blocktype.py:20 | Only the empty string has no lines |
| Strings.SplitLinesJoin | src/blocktype.py:20 | Line-feed-free lines joined with line feeds split back into those lines, when the last is not empty |
| Strings.OneLine | src/blocktype.py:20 | A string without a line feed has at most one line |
| Strings.ReplaceCharAt | src/markdown_to_blocks.py:56 | `replace(a, b)` puts `b` at each position that held `a` and keeps every other character in place |
| InlineDelimiter.SplitOnJoin | src/raw_to_textnode.py:12 | Joining the pieces of `text.split(delimiter)` with the delimiter gives the text back |
| InlineDelimiter.SplitOnPiecesClean | src/raw_to_textnode.py:12 | No piece of the split contains the delimiter |
| InlineDelimiter.SplitOnFirst | src/raw_to_textnode.py:12 | The text starts with the first piece |
| InlineDelimiter.Alternate | src/raw_to_textnode.py:18-23 | Piece i becomes a node of the new type when i is odd, and a NORMAL node when i is even |
| InlineDelimiter.SplitNodesDelimiterFails | src/raw_to_textnode.py:12 | The call raises exactly when the delimiter is empty and some node is NORMAL, since `str.split("")` raises `ValueError` |
| InlineDelimiter.TypedNodesPassThrough | src/raw_to_textnode.py:8-10 | A list without NORMAL nodes is returned unchanged |
| InlineDelimiter.UnmatchedDelimiterKept | src/raw_to_textnode.py:13-16 | A NORMAL node with an unmatched delimiter (an even number of pieces) is kept as it is, with no error |
| InlineDelimiter.AlternateRoundTrip | src/raw_to_textnode.py:18-23 | Re-delimiting the alternating nodes gives back the joined pieces |
| InlineDelimiter.SplitNodesDelimiterRoundTrip | src/raw_to_textnode.py:5-25 | With a non-empty delimiter and no node already of the target type, splitting succeeds. Writing the typed nodes back between delimiters restores the original markdown |
| InlineDelimiter.SplitNodeDelimiterClean | src/raw_to_textnode.py:13-23 | After a split, no node's text holds the delimiter, and the node types alternate starting from NORMAL |
| InlineDelimiter.SplitNodesDelimiterLoop | src/raw_to_textnode.py:5-25 | The loop computes `split_nodes_delimiter`, including its error |
| InlineDelimiter.SplitNodesDelimiterStep | src/raw_to_textnode.py:7-23 | One loop step appends the node unchanged, fails on an empty delimiter, or appends the node's split |
| InlineLinks.BracketsAtSound | src/raw_to_textnode.py:28 | A bracket match covers `[text](url)`, with no bracket in the text and no parenthesis in the URL |
| InlineLinks.BracketsAtComplete | src/raw_to_textnode.py:28 | Every `[text](url)` with a bracket-free text and a parenthesis-free URL is matched at its start |
| InlineLinks.MatchAtSound | src/raw_to_textnode.py:35 | A match at i is the image or link markup with clean groups, and a link is never preceded by `!` |
| InlineLinks.MatchAtComplete | src/raw_to_textnode.py:63 | All markup that the pattern accepts at i, the lookbehind included, is matched there |
| InlineLinks.FindIterIsScan | src/raw_to_textnode.py:43 | `finditer` returns the leftmost non-overlapping matches: it skips positions with no match and resumes after each match |
| InlineLinks.ScanIsFindIter | src/raw_to_textnode.py:71 | Any leftmost non-overlapping scan of the text is the `finditer` result, which makes it unique |
| InlineLinks.ScanIsChained | src/raw_to_textnode.py:43-53 | The matches are in order, do not overlap and stay inside the text |
| InlineLinks.ScanCovers | src/raw_to_textnode.py:43-45 | Each match's span is its markup, and its groups are its text and URL |
| InlineLinks.GroupsAt | src/raw_to_textnode.py:28 | `findall` gives, in order, the (text, url) groups of the matches |
| InlineLinks.AssembleRoundTrip | src/raw_to_textnode.py:42-57 | The emitted nodes, written back as markdown, are the text from `pos` to the end |
| InlineLinks.SplitTextRoundTrip | src/raw_to_textnode.py:42-57 | Splitting one text and writing the nodes back as markdown gives the text |
| InlineLinks.AssembleNormalsNonEmpty | src/raw_to_textnode.py:48-57 | No empty NORMAL node is emitted between, before or after matches |
| InlineLinks.SplitTextNormalsNonEmpty | src/raw_to_textnode.py:56-57 | Splitting emits no empty NORMAL node, and an empty text emits nothing |
| InlineLinks.AssembleGroups | src/raw_to_textnode.py:45-52 | The typed nodes emitted hold exactly the groups of the matches, in order |
| InlineLinks.SplitImagesAgreesWithExtract | src/raw_to_textnode.py:33-59 | The image nodes of `split_nodes_images` are exactly `extract_markdown_images` of the text |
| InlineLinks.SplitLinksAgreesWithExtract | src/raw_to_textnode.py:61-84 | The link nodes of `split_nodes_links` are exactly `extract_markdown_links` of the text |
| InlineLinks.SplitNodeRoundTrip | src/raw_to_textnode.py:37-57 | Splitting one node preserves its markdown |
| InlineLinks.SplitNodesRoundTrip | src/raw_to_textnode.py:33-59 | Splitting a node list preserves the markdown of the whole list |
| InlineLinks.SplitNodesNormalsNonEmpty | src/raw_to_textnode.py:33-59 | If no NORMAL node was empty before a split, none is empty after it |
| InlineLinks.NoBracketNoMatch | src/raw_to_textnode.py:35 | Text without `[` has no image or link match |
| InlineLinks.NoBracketUnsplit | src/raw_to_textnode.py:61-84 | A non-empty NORMAL text without `[` passes through unchanged |
| InlineLinks.SplitTextBy | src/raw_to_textnode.py:42-57 | The `finditer` loop over one text emits the nodes that the specification assembles |
| InlineLinks.SplitNodesBy | src/raw_to_textnode.py:37-59 | The node loop emits the specification's nodes for the given pattern |
| InlineLinks.SplitNodesImages | src/raw_to_textnode.py:33-59 | `split_nodes_images` |
| InlineLinks.SplitNodesLinks | src/raw_to_textnode.py:61-84 | `split_nodes_links` |
| InlineEmphasis.CloseFromFirst | src/raw_to_textnode.py:116 | The lazy `.*?` stops at the first closing delimiter and crosses no line feed |
| InlineEmphasis.MatchAtSound | src/raw_to_textnode.py:116-130 | A match at a is a match, and the shortest one starting at a |
| InlineEmphasis.MatchAtComplete | src/raw_to_textnode.py:116-130 | Any match starting at a is found, ending no later |
| InlineEmphasis.NoMatchAt | src/raw_to_textnode.py:116 | When nothing matches at a, there is no match starting at a |
| InlineEmphasis.SearchMisses | src/raw_to_textnode.py:116 | A failed `re.search` means no match anywhere from the start position |
| InlineEmphasis.SearchSkips | src/raw_to_textnode.py:116-130 | No match starts before the one `re.search` returns |
| InlineEmphasis.SearchLeftmost | src/raw_to_textnode.py:116-130 | `re.search` returns the leftmost match, shortest at that start, or nothing when there is none |
| InlineEmphasis.TypePriority | src/raw_to_textnode.py:115-135 | The first match is code if any code match exists, else bold if any bold match exists, else italic. It is the leftmost shortest match of its kind, and there is none only when all three searches fail |
| InlineEmphasis.FormatPlain | src/raw_to_textnode.py:105-140 | Formatting never produces a link or image and never attaches a URL |
| InlineEmphasis.FromMatchPlain | src/raw_to_textnode.py:142-166 | The same holds for the nodes built around one match |
| InlineEmphasis.WrapPlain | src/raw_to_textnode.py:154-161 | Wrapping plain inner nodes gives a plain node |
| InlineEmphasis.FormatSettled | src/raw_to_textnode.py:105-140 | Every NORMAL node that formatting leaves is non-empty, and none of the three patterns matches in it |
| InlineEmphasis.FromMatchSettled | src/raw_to_textnode.py:142-166 | The same holds for the nodes built around one match: the empty `before` and `after` are skipped |
| InlineEmphasis.WrapCollapses | src/raw_to_textnode.py:154-161 | The wrapped node is one node of the match's type, holding the inner nodes' texts joined |
| InlineEmphasis.FormatShrinks | src/raw_to_textnode.py:105-140 | Formatting never lengthens the text, since it only removes delimiters |
| InlineEmphasis.FromMatchShrinks | src/raw_to_textnode.py:142-166 | Around a match, the text strictly shrinks, so the recursion terminates |
| InlineEmphasis.NoDelimitersUnchanged | src/raw_to_textnode.py:137-138 | Text without a backtick, star or underscore comes back as one NORMAL node |
| InlineEmphasis.FormatNodesSettled | src/raw_to_textnode.py:105-140 | Formatting a node list whose NORMAL nodes are non-empty leaves only settled nodes |
| InlineEmphasis.FormatStep | src/raw_to_textnode.py:142-166 | Formatting a text with a match formats the part before it, wraps the inner part, then formats the part after it |
| InlineEmphasis.SearchFinds | src/raw_to_textnode.py:116 | An opening delimiter with no earlier delimiter, closed on the same line, is what `re.search` finds |
| InlineEmphasis.ItalicBetweenMatch | src/raw_to_textnode.py:130 | In `x_y_z` with plain words, the italic pattern matches `_y_` |
| InlineEmphasis.ItalicStep | src/raw_to_textnode.py:142-166 | `x_y_z` is formatted as x, then the italic wrap of y, then z |
| InlineEmphasis.ItalicBetween | src/raw_to_textnode.py:130-134 | `x_y_z` becomes NORMAL x, ITALIC y, NORMAL z |
| InlineEmphasis.BoldBetweenMatch | src/raw_to_textnode.py:116-127 | In `x**y**z` with plain words, the code search fails and the bold search finds `**y**` |
| InlineEmphasis.BoldStep | src/raw_to_textnode.py:142-166 | `x**y**z` is formatted as x, then the bold wrap of y, then z |
| InlineEmphasis.BoldBetween | src/raw_to_textnode.py:123-127 | `x**y**z` becomes NORMAL x, BOLD y, NORMAL z |
| InlineEmphasis.BoldAroundMatch | src/raw_to_textnode.py:123 | `**inner**` with no backtick, star or line feed inside matches as bold over the whole text |
| InlineEmphasis.BoldAround | src/raw_to_textnode.py:123-127 | `**inner**` becomes one BOLD node holding the formatted inner texts joined |
| InlineEmphasis.BoldAroundItalicCollapses | src/raw_to_textnode.py:158-161 | Bold around `x_y_z` collapses the italic inside into one BOLD node `xyz` |
| InlineEmphasis.CodeFirstMatch | src/raw_to_textnode.py:115-117 | When the text before the first backtick pair holds no backtick, that code span is the first match, whatever italic or bold comes earlier |
| InlineEmphasis.CodeFirst | src/raw_to_textnode.py:116-121 | The text is split at the code span first, then each side is formatted |
| InlineEmphasis.CodeBeforeEarlierItalic | src/raw_to_textnode.py:115 | The code span is split out first, and the italic before it is then found in the part before: `x_y_w` + code + `z` gives x, ITALIC y, w, CODE c, z |
| InlineEmphasis.RecursivelyFormatNodes | src/raw_to_textnode.py:105-140 | `recursively_format_nodes` computes the formatting specification |
| InlineEmphasis.RecursivelyFormatNodesFromMatch | src/raw_to_textnode.py:142-166 | `recursively_format_nodes_from_match` computes the nodes around one match |
| InlineEmphasis.JoinTexts | src/raw_to_textnode.py:160 | The join of the inner nodes' texts |
| Inline.TextToTextNodesPasses | src/raw_to_textnode.py:89-103 | The three passes in sequence compute `text_to_textnodes` |
| Inline.LinkPassesRoundTrip | src/raw_to_textnode.py:94-98 | After the image and link passes, the nodes still spell the original text |
| Inline.EmptyTextGivesNothing | src/raw_to_textnode.py:42-57 | The empty text gives no nodes: the image and link passes emit nothing for it, so the formatter gets an empty list |
| Inline.ResultSettled | src/raw_to_textnode.py:89-103 | Every NORMAL node of the result is non-empty and free of code, bold and italic matches |
| Inline.BracketFreeIsEmphasis | src/raw_to_textnode.py:94-103 | Without a `[`, the image and link passes change nothing, so the result is the code, bold and italic formatting of the text |
| Inline.PlainTextUnchanged | src/raw_to_textnode.py:94-138 | Non-empty text with no markup characters passes the image and link passes unchanged and falls through every search: one NORMAL node |
| Blocks.SegmentBlocks | src/markdown_to_blocks.py:7-26 | The line loop computes the block segmentation specification |
| Blocks.BlockOfClean | src/markdown_to_blocks.py:18 | A gathered block is clean, and its lines are the stripped gathered lines |
| Blocks.FlushKeeps | src/markdown_to_blocks.py:17-19 | Flushing at a blank line keeps the segmentation invariant and empties the current block |
| Blocks.GatherInvariant | src/markdown_to_blocks.py:20-21 | Gathering a non-blank line keeps the invariant |
| Blocks.FoldKeeps | src/markdown_to_blocks.py:15-21 | At every point of the loop, the blocks plus the current lines are the stripped non-blank lines so far |
| Blocks.BlocksAreCleanLines | src/markdown_to_blocks.py:7-26 | Every block is clean: no blank line and no line with whitespace at either end. The blocks' lines are exactly the stripped non-blank lines of the input |
| Blocks.NoNonBlankNoBlocks | src/markdown_to_blocks.py:7-26 | Markdown with no non-blank line has no blocks |
| Blocks.WhitespaceOnlyHasNoBlocks | src/test_raw_to_textnode.py:389-392 | Whitespace-only markdown has no blocks |
| Blocks.EmptyHasNoBlocks | src/test_raw_to_textnode.py:384-387 | The empty string has no blocks |
| Blocks.FoldGathers | src/markdown_to_blocks.py:20-21 | A run of clean lines is gathered into the current block, none flushed |
| Blocks.StripAllClean | src/markdown_to_blocks.py:18 | Clean lines are their own strips |
| Blocks.BlockOfLines | src/markdown_to_blocks.py:18 | Re-joining a clean block's lines gives the block |
| Blocks.SplitAtBlankLine | src/markdown_to_blocks.py:11 | Splitting at a blank line gives the lines before it, one empty line, then the lines after it |
| Blocks.ResegmentFold | src/markdown_to_blocks.py:15-24 | The loop over joined clean blocks ends holding all blocks but the last, with the last block's lines current |
| Blocks.ResegmentClean | src/markdown_to_blocks.py:7-26 | Clean blocks joined by blank lines segment back into the same blocks |
| Blocks.ResegmentNonEmpty | src/markdown_to_blocks.py:23-24 | The non-empty case: the final flush yields the last block |
| Blocks.ResegmentIdempotent | src/markdown_to_blocks.py:7-26 | Segmenting the re-joined blocks of any markdown gives the same blocks |
| Blocks.StepAlike | src/markdown_to_blocks.py:16-21 | One loop step on two lines with the same strip keeps the two loop states alike: the same blocks, and current lines with the same strips |
| Blocks.FoldAlike | src/markdown_to_blocks.py:15-21 | Two line lists that strip to the same lines leave the loop in alike states |
| Blocks.FlushAlike | src/markdown_to_blocks.py:23-24 | Alike loop states flush to the same blocks |
| Blocks.StrippedLinesSameBlocks | src/markdown_to_blocks.py:7-26 | Two texts whose lines strip to the same lines, one by one, have the same blocks, whatever their indentation |
| Blocks.BlankLineBefore | src/markdown_to_blocks.py:16-19 | A blank first line adds no block and changes none |
| Blocks.BlankLineAfter | src/markdown_to_blocks.py:16-24 | A blank last line adds no block and changes none |
| BlockHtml.Spans | src/markdown_to_blocks.py:56-57 | Every span leaf built from inline text is well-formed |
| BlockHtml.HeadingLevel | src/markdown_to_blocks.py:62 | The level is at most 6 and at most the length of the left-stripped block |
| BlockHtml.QuoteLines | src/markdown_to_blocks.py:69 | Each quote line becomes its `lstrip("> ").strip()`, in order |
| BlockHtml.UnorderedItems | src/markdown_to_blocks.py:81 | Each line becomes its `lstrip("- ").strip()`, in order |
| BlockHtml.OrderedItems | src/markdown_to_blocks.py:89 | Each line loses its `^\d+\.\s*` marker and is stripped, in order |
| BlockHtml.NonEmpty | src/markdown_to_blocks.py:84 | The `if item` filter keeps exactly the non-empty items, and keeps all of them when none is empty |
| BlockHtml.NonEmptyAppend | src/markdown_to_blocks.py:84 | The filter keeps order: filtering a concatenation is concatenating the filtered parts |
| BlockHtml.NonEmptyCount | src/markdown_to_blocks.py:84 | Each non-empty item occurs in the result as often as in the input, and the empty item not at all |
| BlockHtml.NonEmptyMultiset | src/markdown_to_blocks.py:84 | The result is, as a multiset, the items with every empty item removed |
| BlockHtml.ListNodeDropsEmpty | src/markdown_to_blocks.py:80-94 | An empty item anywhere in a list is dropped and changes nothing else: the list node is the one built without it |
| BlockHtml.CodeBlockHasLines | src/markdown_to_blocks.py:76-77 | A block classified as code has a first line, so `lines[0]` is defined |
| BlockHtml.BuildHtmlNode | src/markdown_to_blocks.py:28-53 | The `add_child` loop builds a new `div` holding one node per block, in block order |
| BlockHtml.OneChildPerBlock | src/markdown_to_blocks.py:35-51 | The document is a `div` with one child per block, each tagged for its block's type |
| BlockHtml.BlockNodeTag | src/markdown_to_blocks.py:36-51 | Each block's node carries the tag of its type: `p`, `h1`..`h6`, `pre`, `blockquote`, `ul` or `ol` |
| BlockHtml.BlockNodeWellFormed | src/markdown_to_blocks.py:55-94 | Every builder produces a well-formed tree |
| BlockHtml.ListNodeWellFormed | src/markdown_to_blocks.py:80-94 | A list node and its `li` items are well-formed |
| BlockHtml.BlockNodesWellFormed | src/markdown_to_blocks.py:35-51 | Every child of the document is well-formed |
| BlockHtml.ConversionRenders | src/markdown_to_blocks.py:28-53 | Every converted document renders without error |
| BlockHtml.DashBlockNode | src/markdown_to_blocks.py:45-46 | A block starting with `- ` is built as an unordered list |
| BlockHtml.OneBlockDocument | src/markdown_to_blocks.py:32-53 | A clean block on its own is a document of exactly that one block |
| BlockHtml.BlankMarkdownRendersEmptyDiv | src/test_raw_to_textnode.py:459-464 | Empty or whitespace-only markdown renders as `<div></div>` |
| BlockHtml.EmptyDivRenders | src/test_htmlnode.py:44-45 | An empty `div` renders as `<div></div>` |
| BlockHtml.OneChildRenders | src/htmlnode.py:39-54 | A parent with one rendered child renders as the tag around that child's output |
| BlockHtml.TwoChildrenRender | src/htmlnode.py:39-54 | A parent with two rendered children renders as the tag around the first child's output followed by the second's |
| BlockHtml.HeadingLevelRange | src/markdown_to_blocks.py:62 | A heading block's level is between 1 and 6 |
| BlockHtml.HeadingOfHashes | src/test_raw_to_textnode.py:468-472 | `n` hashes, a space, then text without `#` build an `h<n>` node of the stripped text |
| BlockHtml.HeadingOfHashesParts | src/markdown_to_blocks.py:61-63 | For such a block, the level is n and the content is the stripped text |
| BlockHtml.HeadingCountsEveryHash | src/markdown_to_blocks.py:62 | Every `#` in the block counts toward the level, not only the leading run: `# w#` is level 2 with content `w#` |
| BlockHtml.CodeFencesDropped | src/markdown_to_blocks.py:75-78 | For a fenced block, the first and last lines are dropped and the body goes into a `code` leaf inside `pre` |
| BlockHtml.CodeBlockRenders | src/test_raw_to_textnode.py:480-485 | A fenced block renders as `<pre><code>body</code></pre>` |
| BlockHtml.PreCodeRenders | src/markdown_to_blocks.py:78 | A `pre` holding one `code` leaf renders as the two tags around the body |
| BlockItems.ListItems | src/markdown_to_blocks.py:82-85 | One `li` per item, in order, each holding the item's spans |
| BlockItems.QuoteLineOf | src/markdown_to_blocks.py:69 | `"> " + t` strips back to t when t is stripped and does not start with `>` |
| BlockItems.QuoteOfItems | src/test_raw_to_textnode.py:487-491 | Quoted lines become their texts joined by single spaces |
| BlockItems.UnorderedItemOf | src/markdown_to_blocks.py:81 | `"- " + t` gives back the item t |
| BlockItems.UnorderedListOfItems | src/markdown_to_blocks.py:80-86 | A block of `- t` lines builds a `ul` with one `li` per item, in order |
| BlockItems.OrderedItemOf | src/markdown_to_blocks.py:89 | `m. t` with a number m gives back the item t |
| BlockItems.DropOrderedMarkerOf | src/markdown_to_blocks.py:89 | `^\d+\.\s*` removes exactly the number, the dot and the whitespace after it |
| BlockItems.OrderedListOfItems | src/markdown_to_blocks.py:88-94 | A block of numbered lines builds an `ol` with one `li` per item, in order |
| BlockItems.ReplaceJoin | src/markdown_to_blocks.py:56 | Replacing line feeds with spaces in joined lines is joining them with spaces |
| BlockItems.ParagraphOfLines | src/markdown_to_blocks.py:55-58 | A paragraph of several lines is one `p` of the lines joined with spaces |
| BlockItems.ReplaceWithout | src/markdown_to_blocks.py:56 | Replacing line feeds changes nothing in a line without one |
| Conversion.ListItemRenders | src/markdown_to_blocks.py:83 | A plain item renders as `<li>item</li>` |
| Conversion.ListRenders | src/markdown_to_blocks.py:80-86 | A list of plain items renders its `li` elements in order between the list tags |
| Conversion.UnorderedListBlockNode | src/markdown_to_blocks.py:45-46 | A block of `- ` lines is classified as an unordered list and built into a `ul` of its items |
| Conversion.UnorderedListDocumentNode | src/markdown_to_blocks.py:28-53 | A one-list document converts to a `div` holding one `ul` |
| Conversion.UnorderedListDocument | src/test_raw_to_textnode.py:493-498 | `- a\n- b` renders as `<div><ul><li>a</li><li>b</li></ul></div>`, for any number of plain items |
| Conversion.Leaves | src/markdown_to_blocks.py:57 | One leaf per span, in order, each the span's `text_node_to_html_node` |
| Conversion.ParagraphLeaves | src/markdown_to_blocks.py:55-58 | A paragraph node is a `p` holding the leaves of the spans of its text, line feeds read as spaces |
| Conversion.LeavesRender | src/htmlnode.py:39-54 | A parent of span leaves renders its tag around the spans' HTML, in order |
| Conversion.SpansHtmlAppend | src/htmlnode.py:45-52 | The HTML of two runs of spans is the HTML of the first followed by that of the second |
| Conversion.SpansHtmlThree | src/htmlnode.py:45-52 | Three spans render as their three HTML strings in order |
| Conversion.ParagraphRenders | src/markdown_to_blocks.py:55-58 | A paragraph renders as `<p>`, the HTML of the spans of its text with line feeds read as spaces, then `</p>` |
| Conversion.ParagraphBlockNode | src/markdown_to_blocks.py:36-40 | A block whose first character starts no heading, quote, code block or list is built as a paragraph |
| Conversion.TwoCleanBlocks | src/markdown_to_blocks.py:7-26 | Two clean blocks separated by a blank line segment into exactly those two blocks |
| Conversion.TwoBlockNodes | src/markdown_to_blocks.py:28-53 | Two clean blocks separated by a blank line convert to a `div` of their two nodes, in order |
| Conversion.TwoBlockDocument | src/markdown_to_blocks.py:28-53 | Such a document renders as `<div>`, the first block's HTML, the second's, `</div>` |
| Conversion.LinesBlockClean | src/markdown_to_blocks.py:18 | Trimmed lines without line feeds, joined with line feeds, form a clean block that starts with the first line |
| Conversion.ThreeLinesSpaced | src/markdown_to_blocks.py:56 | Three lines joined with line feeds read, with line feeds as spaces, as the lines joined with spaces |
| Conversion.ThreeLineParagraph | src/markdown_to_blocks.py:36-40 | Three trimmed lines whose first opens a paragraph form a clean paragraph block |
| Conversion.OneLineParagraph | src/markdown_to_blocks.py:36-40 | One trimmed line that opens a paragraph is a clean paragraph block |
| Conversion.BoldSpans | src/raw_to_textnode.py:89-103 | `x**y**z` over prose gives NORMAL x, BOLD y, NORMAL z |
| Conversion.BoldSpansHtml | src/test_htmlnode.py:76-80 | Those spans render as `x<b>y</b>z` |
| Conversion.ItalicCodeSpans | src/raw_to_textnode.py:89-103 | `p_q_w` + `` `c` `` + `v` over prose gives NORMAL p, ITALIC q, NORMAL w, CODE c, NORMAL v |
| Conversion.ItalicCodeSpansHtml | src/test_htmlnode.py:82-92 | Those spans render as `p<i>q</i>w<code>c</code>v` |
| Conversion.ProseSpaced | src/raw_to_textnode.py:89-103 | Prose joined with spaces is still prose |
| Conversion.BoldParagraph | src/test_raw_to_textnode.py:517-520 | The lines `x**y**z`, l2 and l3 form one paragraph block rendering `<p>x<b>y</b>z l2 l3</p>` |
| Conversion.ItalicCodeParagraph | src/test_raw_to_textnode.py:522 | The line `p_q_w` + `` `c` `` + `v` is one paragraph block rendering `<p>p<i>q</i>w<code>c</code>v</p>` |
| Conversion.ParagraphsDocument | src/test_raw_to_textnode.py:516-531 | Those two paragraphs, unindented and separated by a blank line, render as `<div><p>…<b>…</b>…</p><p>…<i>…</i>…<code>…</code>…</p></div>`, for any prose words |
| Conversion.StripIndentedLines | src/markdown_to_blocks.py:16-18 | Lines that differ only by an indentation strip to the same lines |
| Conversion.SplitTwoBlocks | src/markdown_to_blocks.py:11 | Three lines, a blank line and a fourth line split into those five lines |
| Conversion.IndentedPadding | src/markdown_to_blocks.py:15-24 | A blank line before the text and a blank line plus an indented empty line after it add no block |
| Conversion.IndentedParagraphLines | src/markdown_to_blocks.py:15-24 | Indenting every line of two paragraphs changes none of their blocks |
| Conversion.IndentedDocumentBlocks | src/test_raw_to_textnode.py:517-524 | The triple-quoted shape of the test document, every line indented and blank lines around it, has the blocks of the unindented document |
| Conversion.IndentedParagraphsDocument | src/test_raw_to_textnode.py:516-531 | The test document in its own shape renders as the expected two-paragraph `div`, for any indentation within a line and any prose words |

## Left out

- `copy_static.py`, `generate_page.py` and `main.py` are not part of this model. They read and write files and directories, which is I/O outside the converter.
- `textnode.py` is not part of this model. The `TextNode` type and `text_node_to_html_node` follow what `test_htmlnode.py:69-105` and `test_textnode.py` state. An image leaf's value is taken to be the empty string, which those tests do not fix.
- `HTMLNode.to_html` raising `NotImplementedError` on the base class is not modelled: the node type has only the leaf and parent forms.
- The warning that `ParentNode.to_html` prints for a childless parent is console output and is left out. The rendering itself is modelled.
- `ParentNode.to_html`'s fallbacks for children without `to_html` (`.text`, `str(child)`) are left out: every child in the model is a node. `__repr__` is left out too.
- Whitespace is the six ASCII whitespace characters (space, `\t`, `\n`, `\r`, `\v`, `\f`), and digits are `0`..`9`. Python's `str.strip` and `\s` also treat `\x1c`..`\x1f`, `\x85`, `\xa0` and the other Unicode spaces as whitespace, and `\d` accepts Unicode digits; none of these are modelled.
- `splitlines` splits on `\n` only. The other line boundaries Python recognises (`\r`, `\r\n`, `\v`, `\f`, `\x1c`..`\x1e`, `\x85`, `\u2028`, `\u2029`) are not modelled.
- The regular expressions are modelled one by one as scans, not through a general regex engine.
- BlockHtml.CodeNode: requires a block with at least one line. On an empty block the source raises `IndexError` at `lines[0]`, but a code block always has lines (`BlockHtml.CodeBlockHasLines`), so the builder is never called that way.
- `split_nodes_delimiter` on an unmatched delimiter: the method at `test_raw_to_textnode.py:85-88` expects a `ValueError`, but the code (`raw_to_textnode.py:13-16`) re-emits the node unchanged. That method is shadowed by the method of the same name at `test_raw_to_textnode.py:278`, so the disagreement exists only in the text of the tests. The model follows the code (`InlineDelimiter.UnmatchedDelimiterKept`).
- Strings.ReplaceChar: its own contract states only the length. The character-by-character property is `Strings.ReplaceCharAt`.
- InlineLinks.Groups: its own contract states only the length. The pointwise property is `InlineLinks.GroupsAt`.
- In-place mutation of the inner node's `text_type` (`raw_to_textnode.py:156`) is modelled as building a new node of that type. No other list holds the inner node, so aliasing plays no part.
