/**
 * `block_to_block_type`: a priority chain of prefix tests on one block.
 * Line splitting recognises only line feed; digits are ASCII.
 */
module BlockTypes {
  import opened Strings

  datatype BlockType = Paragraph | Heading | Quote | Code | UnorderedList | OrderedList

  const Digits: set<char> := {'0', '1', '2', '3', '4', '5', '6', '7', '8', '9'}

  /** `block.lstrip().split(" ", 1)[0].count("#") > 0`. */
  predicate HeadingWord(block: string) {
    CountChar(Split(LStrip(block), ' ')[0], '#') > 0
  }

  /** At least two lines in the stripped block, the first and the last opening with a fence. */
  predicate Fenced(block: string) {
    var lines := SplitLines(Strip(block));
    |lines| >= 2 && StartsWith(lines[0], "```") && StartsWith(lines[|lines| - 1], "```")
  }

  /** `re.match(r"^\d+\.\s", block)`: the greedy digit run, then a dot, then one whitespace character. */
  predicate OrderedMarker(block: string) {
    var k := LeadingCount(block, Digits);
    k >= 1 && k + 1 < |block| && block[k] == '.' && block[k + 1] in Whitespace
  }

  /** `block_to_block_type`. */
  function BlockToBlockType(block: string): BlockType {
    if StartsWith(LStrip(block), "#") && HeadingWord(block) then Heading
    else if StartsWith(block, "> ") then Quote
    else if Fenced(block) then Code
    else if StartsWith(block, "- ") then UnorderedList
    else if OrderedMarker(block) then OrderedList
    else Paragraph
  }

  // ---------------------------------------------------------------------------
  // Properties

  /** The pattern `\d+\.\s` at the start, stated without the scan. */
  predicate IsOrderedMarker(block: string) {
    exists k :: 1 <= k && k + 1 < |block| && DigitsBefore(block, k)
      && block[k] == '.' && block[k + 1] in Whitespace
  }

  predicate DigitsBefore(s: string, k: int)
    requires k <= |s|
  {
    forall i :: 0 <= i < k ==> IsDigit(s[i])
  }

  lemma OrderedMarkerIff(block: string)
    ensures OrderedMarker(block) <==> IsOrderedMarker(block)
  {
    var k := LeadingCount(block, Digits);
    if IsOrderedMarker(block) {
      var j :| 1 <= j && j + 1 < |block| && DigitsBefore(block, j)
        && block[j] == '.' && block[j + 1] in Whitespace;
      assert k == j;
    }
    if OrderedMarker(block) {
      assert DigitsBefore(block, k);
    }
  }

  /** A block is a heading exactly when its left-stripped form starts with `#`; the word test never decides. */
  lemma HeadingIff(block: string)
    ensures BlockToBlockType(block) == Heading <==> StartsWith(LStrip(block), "#")
  {
    var s := LStrip(block);
    if StartsWith(s, "#") {
      SplitFirstChar(s, ' ');
      var word := Split(s, ' ')[0];
      assert word[0] == '#';
      assert '#' in word;
    }
  }

  /** A block starting with `"> "` is a quote, and nothing else is: leading whitespace or a later `>` gives no quote. */
  lemma QuoteIff(block: string)
    ensures BlockToBlockType(block) == Quote <==> StartsWith(block, "> ")
  {
    if StartsWith(block, "> ") {
      NotHeading(block);
    }
  }

  /** A block whose first character is neither whitespace nor `#` is no heading. */
  lemma NotHeading(block: string)
    requires block != [] && block[0] !in Whitespace && block[0] != '#'
    ensures !StartsWith(LStrip(block), "#")
  {
    StripFirst(block);
  }

  /** A block whose first character is neither whitespace nor a backtick is not fenced. */
  lemma NotFenced(block: string)
    requires block != [] && block[0] !in Whitespace && block[0] != '`'
    ensures !Fenced(block)
  {
    StripFirst(block);
    SplitLinesFirstChar(Strip(block));
  }

  /** A block starting with `"- "` is an unordered list, and nothing else is. */
  lemma UnorderedListIff(block: string)
    ensures BlockToBlockType(block) == UnorderedList <==> StartsWith(block, "- ")
  {
    if StartsWith(block, "- ") {
      NotHeading(block);
      NotFenced(block);
    }
  }

  /** A block starting with digits, a dot and one whitespace character is an ordered list, and nothing else is. */
  lemma OrderedListIff(block: string)
    ensures BlockToBlockType(block) == OrderedList <==> IsOrderedMarker(block)
  {
    OrderedMarkerIff(block);
    if OrderedMarker(block) {
      assert block[0] in Digits;
      NotHeading(block);
      NotFenced(block);
    }
  }

  /** A code block needs its fences on separate lines: a block of one line is never code. */
  lemma OneLineIsNotCode(block: string)
    requires '\n' !in block
    ensures BlockToBlockType(block) != Code
  {
    StripKeepsAbsent(block, '\n');
    OneLine(Strip(block));
  }

  /** Paragraph is the default: it is chosen exactly when no other rule applies. */
  lemma ParagraphIff(block: string)
    ensures BlockToBlockType(block) == Paragraph <==>
      !StartsWith(LStrip(block), "#") && !StartsWith(block, "> ") && !Fenced(block)
      && !StartsWith(block, "- ") && !IsOrderedMarker(block)
  {
    HeadingIff(block);
    OrderedMarkerIff(block);
  }

  /** A code block is fenced. */
  lemma CodeIsFenced(block: string)
    requires BlockToBlockType(block) == Code
    ensures Fenced(block)
  {
  }

  /** A fenced block of at least two lines is code unless it is indented under a `#` or starts with `"> "`. */
  lemma FencedIsCode(block: string)
    requires Fenced(block) && !StartsWith(block, "> ") && !StartsWith(LStrip(block), "#")
    ensures BlockToBlockType(block) == Code
  {
  }
}
