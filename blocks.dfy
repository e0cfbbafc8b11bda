/**
 * `markdown_to_blocks`: the text is split at line feeds, blank lines end a
 * block, and each block is its lines, every one stripped, joined with line
 * feeds.
 */
module Blocks {
  import opened Strings

  /** A line that `line.strip()` empties. */
  predicate Blank(line: string) {
    Strip(line) == ""
  }

  function StripAll(lines: seq<string>): (r: seq<string>)
    ensures |r| == |lines|
  {
    if lines == [] then [] else StripAll(lines[..|lines| - 1]) + [Strip(lines[|lines| - 1])]
  }

  /** `'\n'.join(line.strip() for line in current_block)`. */
  function BlockOf(current: seq<string>): string {
    Join(StripAll(current), "\n")
  }

  /** The loop state: the blocks emitted so far and the lines of the block being gathered. */
  datatype Segmenter = Segmenter(blocks: seq<string>, current: seq<string>)

  /** Emit the gathered block, if any. */
  function Flush(st: Segmenter): Segmenter {
    if st.current != [] then Segmenter(st.blocks + [BlockOf(st.current)], []) else st
  }

  /** One iteration of the loop over lines. */
  function Step(st: Segmenter, line: string): Segmenter {
    if Blank(line) then Flush(st) else Segmenter(st.blocks, st.current + [line])
  }

  function Fold(st: Segmenter, lines: seq<string>): Segmenter {
    if lines == [] then st else Step(Fold(st, lines[..|lines| - 1]), lines[|lines| - 1])
  }

  /** `markdown_to_blocks`. */
  function MarkdownToBlocks(markdown: string): seq<string> {
    Flush(Fold(Segmenter([], []), Split(markdown, '\n'))).blocks
  }

  /** `markdown_to_blocks` as the source runs it: one pass over the lines, gathering into `current`. */
  method SegmentBlocks(markdown: string) returns (blocks: seq<string>)
    ensures blocks == MarkdownToBlocks(markdown)
  {
    var lines := Split(markdown, '\n');
    blocks := [];
    var current: seq<string> := [];
    var i := 0;
    while i < |lines|
      invariant 0 <= i <= |lines|
      invariant Segmenter(blocks, current) == Fold(Segmenter([], []), lines[..i])
    {
      FoldNext(lines, i);
      var line := lines[i];
      if Strip(line) == "" {
        if current != [] {
          blocks := blocks + [BlockOf(current)];
          current := [];
        }
      } else {
        current := current + [line];
      }
      i := i + 1;
    }
    assert Segmenter(blocks, current) == Fold(Segmenter([], []), lines) by {
      assert lines[..i] == lines;
    }
    if current != [] {
      blocks := blocks + [BlockOf(current)];
    }
  }

  lemma FoldNext(lines: seq<string>, i: nat)
    requires i < |lines|
    ensures Fold(Segmenter([], []), lines[..i + 1]) == Step(Fold(Segmenter([], []), lines[..i]), lines[i])
  {
    assert lines[..i + 1][..i] == lines[..i];
  }

  // ---------------------------------------------------------------------------
  // What a block looks like

  /** A line as it appears in a block: not blank, already stripped, no line feed. */
  predicate CleanLine(line: string) {
    line != "" && Strip(line) == line && '\n' !in line
  }

  /** Every block is non-empty and each of its lines is clean. */
  predicate CleanBlock(block: string) {
    block != "" && CleanLines(Split(block, '\n'))
  }

  predicate CleanLines(lines: seq<string>) {
    forall k {:trigger CleanLine(lines[k])} :: 0 <= k < |lines| ==> CleanLine(lines[k])
  }

  /** The lines of the blocks, in order. */
  function BlockLines(blocks: seq<string>): seq<string> {
    if blocks == [] then [] else BlockLines(blocks[..|blocks| - 1]) + Split(blocks[|blocks| - 1], '\n')
  }

  /** The input lines the loop keeps, in order. */
  function NonBlank(lines: seq<string>): seq<string> {
    if lines == [] then []
    else NonBlank(lines[..|lines| - 1]) + (if Blank(lines[|lines| - 1]) then [] else [lines[|lines| - 1]])
  }

  lemma {:induction false} StripAllAt(lines: seq<string>, k: int)
    requires 0 <= k < |lines|
    ensures StripAll(lines)[k] == Strip(lines[k])
  {
    if k < |lines| - 1 {
      StripAllAt(lines[..|lines| - 1], k);
    }
  }

  /** Lines the loop may gather: neither blank nor holding a line feed. */
  predicate Gatherable(lines: seq<string>) {
    forall k :: 0 <= k < |lines| ==> !Blank(lines[k]) && '\n' !in lines[k]
  }

  lemma GatherableAppend(lines: seq<string>, line: string)
    requires Gatherable(lines) && !Blank(line) && '\n' !in line
    ensures Gatherable(lines + [line])
  {
    var r := lines + [line];
    forall k | 0 <= k < |r| ensures !Blank(r[k]) && '\n' !in r[k] {
      if k < |lines| {
        assert r[k] == lines[k];
      }
    }
  }

  /** A flushed block is clean, and its lines are the stripped lines that were gathered. */
  lemma BlockOfClean(current: seq<string>)
    requires current != []
    requires Gatherable(current)
    ensures CleanBlock(BlockOf(current))
    ensures Split(BlockOf(current), '\n') == StripAll(current)
  {
    var ls := StripAll(current);
    forall k | 0 <= k < |ls| ensures CleanLine(ls[k]) {
      StripAllAt(current, k);
      StripIdempotent(current[k]);
      StripKeepsAbsent(current[k], '\n');
    }
    SplitJoin(ls, '\n');
    assert BlockOf(current) != "" by {
      if |ls| > 1 {
        assert BlockOf(current) == ls[0] + "\n" + Join(ls[1..], "\n");
      }
    }
  }

  predicate AllClean(blocks: seq<string>) {
    forall k {:trigger CleanBlock(blocks[k])} :: 0 <= k < |blocks| ==> CleanBlock(blocks[k])
  }

  lemma AllCleanAppend(blocks: seq<string>, b: string)
    requires AllClean(blocks) && CleanBlock(b)
    ensures AllClean(blocks + [b])
  {
    var r := blocks + [b];
    forall k | 0 <= k < |r| ensures CleanBlock(r[k]) {
      if k < |blocks| {
        assert r[k] == blocks[k];
      }
    }
  }

  /** What the loop keeps true: clean blocks, and the lines kept so far neither lost nor reordered. */
  predicate Invariant(st: Segmenter, kept: seq<string>) {
    AllClean(st.blocks) && Gatherable(st.current)
    && BlockLines(st.blocks) + StripAll(st.current) == StripAll(kept)
  }

  lemma FlushKeeps(st: Segmenter, kept: seq<string>)
    requires Invariant(st, kept)
    ensures Invariant(Flush(st), kept) && Flush(st).current == []
  {
    if st.current != [] {
      var b := BlockOf(st.current);
      BlockOfClean(st.current);
      AllCleanAppend(st.blocks, b);
      var bs := st.blocks + [b];
      assert bs[..|bs| - 1] == st.blocks;
      assert BlockLines(bs) == BlockLines(st.blocks) + StripAll(st.current);
      assert StripAll([]) == [];
      assert BlockLines(bs) + StripAll([]) == BlockLines(bs);
    }
  }

  lemma {:induction false} FoldKeeps(lines: seq<string>)
    requires forall k :: 0 <= k < |lines| ==> '\n' !in lines[k]
    ensures Invariant(Fold(Segmenter([], []), lines), NonBlank(lines))
  {
    if lines == [] {
      assert BlockLines([]) + StripAll([]) == StripAll([]);
    } else {
      var init := lines[..|lines| - 1];
      var line := lines[|lines| - 1];
      FoldKeeps(init);
      var st := Fold(Segmenter([], []), init);
      assert Fold(Segmenter([], []), lines) == Step(st, line);
      if Blank(line) {
        assert NonBlank(init) + [] == NonBlank(init);
        assert NonBlank(lines) == NonBlank(init);
        FlushKeeps(st, NonBlank(init));
      } else {
        assert NonBlank(lines) == NonBlank(init) + [line];
        assert Step(st, line) == Segmenter(st.blocks, st.current + [line]);
        GatherInvariant(st, NonBlank(init), line);
      }
    }
  }

  lemma GatherInvariant(st: Segmenter, kept: seq<string>, line: string)
    requires Invariant(st, kept) && !Blank(line) && '\n' !in line
    ensures Invariant(Segmenter(st.blocks, st.current + [line]), kept + [line])
  {
    GatherKeeps(BlockLines(st.blocks), st.current, kept, line);
    GatherableAppend(st.current, line);
  }

  lemma GatherKeeps(bl: seq<string>, cur: seq<string>, nb: seq<string>, line: string)
    requires bl + StripAll(cur) == StripAll(nb)
    ensures bl + StripAll(cur + [line]) == StripAll(nb + [line])
  {
    assert (cur + [line])[..|cur|] == cur;
    assert (nb + [line])[..|nb|] == nb;
  }

  /** The blocks and their lines: every block is clean, and the blocks' lines, in order, are exactly the stripped non-blank lines of the input. */
  lemma BlocksAreCleanLines(markdown: string)
    ensures AllClean(MarkdownToBlocks(markdown))
    ensures BlockLines(MarkdownToBlocks(markdown)) == StripAll(NonBlank(Split(markdown, '\n')))
  {
    var lines := Split(markdown, '\n');
    FoldKeeps(lines);
    FlushKeeps(Fold(Segmenter([], []), lines), NonBlank(lines));
  }

  /** No block at all from text that holds no non-blank line. */
  lemma {:induction false} NoNonBlankNoBlocks(markdown: string)
    requires NonBlank(Split(markdown, '\n')) == []
    ensures MarkdownToBlocks(markdown) == []
  {
    BlocksAreCleanLines(markdown);
  }

  lemma {:induction false} SplitPiecesFrom(s: string, c: char, k: int, i: int)
    requires 0 <= k < |Split(s, c)| && 0 <= i < |Split(s, c)[k]|
    ensures Split(s, c)[k][i] in s
  {
    if s != [] && s[0] == c {
      if k > 0 {
        SplitPiecesFrom(s[1..], c, k - 1, i);
      }
    } else if s != [] {
      var rest := Split(s[1..], c);
      if k == 0 && i == 0 {
      } else if k == 0 {
        SplitPiecesFrom(s[1..], c, 0, i - 1);
      } else {
        SplitPiecesFrom(s[1..], c, k, i);
      }
    }
  }

  lemma {:induction false} AllBlankNonBlank(lines: seq<string>)
    requires forall k :: 0 <= k < |lines| ==> Blank(lines[k])
    ensures NonBlank(lines) == []
  {
    if lines != [] {
      AllBlankNonBlank(lines[..|lines| - 1]);
    }
  }

  /** Empty or whitespace-only text has no blocks. */
  lemma WhitespaceOnlyHasNoBlocks(markdown: string)
    requires forall i :: 0 <= i < |markdown| ==> markdown[i] in Whitespace
    ensures MarkdownToBlocks(markdown) == []
  {
    var lines := Split(markdown, '\n');
    forall k | 0 <= k < |lines| ensures Blank(lines[k]) {
      forall i | 0 <= i < |lines[k]| ensures lines[k][i] in Whitespace {
        SplitPiecesFrom(markdown, '\n', k, i);
      }
      StripEmptyIff(lines[k]);
    }
    AllBlankNonBlank(lines);
    NoNonBlankNoBlocks(markdown);
  }

  // ---------------------------------------------------------------------------
  // Re-segmenting

  lemma {:induction false} FoldAppend(st: Segmenter, a: seq<string>, b: seq<string>)
    ensures Fold(st, a + b) == Fold(Fold(st, a), b)
  {
    if b == [] {
      assert a + b == a;
    } else {
      var b' := b[..|b| - 1];
      assert (a + b)[..|a + b| - 1] == a + b';
      FoldAppend(st, a, b');
    }
  }

  /** Lines that are not blank are gathered one after the other. */
  lemma {:induction false} FoldGathers(st: Segmenter, lines: seq<string>)
    requires CleanLines(lines)
    ensures Fold(st, lines) == Segmenter(st.blocks, st.current + lines)
  {
    if lines == [] {
      assert st.current + lines == st.current;
    } else {
      var init, last := lines[..|lines| - 1], lines[|lines| - 1];
      CleanInit(lines);
      assert Fold(st, init) == Segmenter(st.blocks, st.current + init) by {
        FoldGathers(st, init);
      }
      assert Fold(st, lines) == Step(Fold(st, init), last);
      assert st.current + init + [last] == st.current + lines by {
        SnocAssoc(st.current, init, last);
        InitLast(lines);
      }
    }
  }

  lemma {:induction false} StripAllClean(lines: seq<string>)
    requires CleanLines(lines)
    ensures StripAll(lines) == lines
  {
    if lines != [] {
      var init, last := lines[..|lines| - 1], lines[|lines| - 1];
      CleanInit(lines);
      assert StripAll(init) == init by {
        StripAllClean(init);
      }
      assert StripAll(lines) == StripAll(init) + [Strip(last)];
      InitLast(lines);
    }
  }

  /** The front of clean lines is clean, and the last clean line is kept as it is. */
  lemma CleanInit(lines: seq<string>)
    requires lines != [] && CleanLines(lines)
    ensures CleanLines(lines[..|lines| - 1])
    ensures !Blank(lines[|lines| - 1]) && Strip(lines[|lines| - 1]) == lines[|lines| - 1]
  {
    var init := lines[..|lines| - 1];
    forall k | 0 <= k < |init| ensures CleanLine(init[k]) {
      assert init[k] == lines[k];
    }
    assert CleanLine(lines[|lines| - 1]);
  }

  lemma InitLast(xs: seq<string>)
    requires xs != []
    ensures xs == xs[..|xs| - 1] + [xs[|xs| - 1]]
  {
  }

  lemma SnocAssoc(a: seq<string>, b: seq<string>, x: string)
    ensures a + b + [x] == a + (b + [x])
  {
  }

  /** Gathering the lines of a clean block and flushing them gives the block back. */
  lemma BlockOfLines(block: string)
    requires CleanBlock(block)
    ensures BlockOf(Split(block, '\n')) == block
  {
    StripAllClean(Split(block, '\n'));
    JoinSplit(block, '\n');
  }

  /** Splitting at a blank line: the lines before, one empty line, the lines after. */
  lemma SplitAtBlankLine(a: string, b: string)
    ensures Split(a + "\n\n" + b, '\n') == Split(a, '\n') + [""] + Split(b, '\n')
  {
    assert a + "\n\n" + b == a + ['\n'] + (['\n'] + b);
    SplitConcat(a, ['\n'] + b, '\n');
    assert (['\n'] + b)[1..] == b;
  }

  lemma {:induction false} ResegmentFold(blocks: seq<string>)
    requires blocks != [] && AllClean(blocks)
    ensures Fold(Segmenter([], []), Split(Join(blocks, "\n\n"), '\n'))
         == Segmenter(blocks[..|blocks| - 1], Split(blocks[|blocks| - 1], '\n'))
  {
    var init := Segmenter([], []);
    var last := blocks[|blocks| - 1];
    assert CleanBlock(last);
    if |blocks| == 1 {
      FoldGathers(init, Split(last, '\n'));
    } else {
      var front := blocks[..|blocks| - 1];
      AllCleanFront(blocks);
      ResegmentFold(front);
      SplitJoined(blocks);
      var x := Split(Join(front, "\n\n"), '\n');
      var st := Fold(init, x);
      FoldAppend(init, x, [""]);
      FoldAppend(init, x + [""], Split(last, '\n'));
      assert Fold(st, [""]) == Step(st, "");
      FlushLast(st, front);
      FoldGathers(Segmenter(front, []), Split(last, '\n'));
    }
  }

  lemma AllCleanFront(blocks: seq<string>)
    requires blocks != [] && AllClean(blocks)
    ensures AllClean(blocks[..|blocks| - 1])
  {
    var front := blocks[..|blocks| - 1];
    forall k | 0 <= k < |front| ensures CleanBlock(front[k]) {
      assert front[k] == blocks[k];
    }
  }

  lemma SplitJoined(blocks: seq<string>)
    requires |blocks| > 1
    ensures Split(Join(blocks, "\n\n"), '\n')
         == Split(Join(blocks[..|blocks| - 1], "\n\n"), '\n') + [""] + Split(blocks[|blocks| - 1], '\n')
  {
    var front, last := blocks[..|blocks| - 1], blocks[|blocks| - 1];
    var x := Join(front, "\n\n");
    assert Join(blocks, "\n\n") == x + "\n\n" + last by {
      assert blocks == front + [last];
      JoinAppend(front, [last], "\n\n");
    }
    SplitAtBlankLine(x, last);
  }

  /** The blank line after the last gathered block flushes it unchanged. */
  lemma FlushLast(st: Segmenter, blocks: seq<string>)
    requires blocks != [] && CleanBlock(blocks[|blocks| - 1])
    requires st == Segmenter(blocks[..|blocks| - 1], Split(blocks[|blocks| - 1], '\n'))
    ensures Step(st, "") == Segmenter(blocks, [])
  {
    BlockOfLines(blocks[|blocks| - 1]);
    assert blocks[..|blocks| - 1] + [blocks[|blocks| - 1]] == blocks;
  }

  /** Clean blocks joined with blank lines segment back into themselves. */
  lemma ResegmentClean(blocks: seq<string>)
    requires AllClean(blocks)
    ensures MarkdownToBlocks(Join(blocks, "\n\n")) == blocks
  {
    if blocks == [] {
      EmptyHasNoBlocks();
    } else {
      ResegmentNonEmpty(blocks);
    }
  }

  lemma EmptyHasNoBlocks()
    ensures MarkdownToBlocks("") == []
  {
    assert Split("", '\n') == [""];
    assert Fold(Segmenter([], []), [""]) == Step(Segmenter([], []), "");
  }

  lemma ResegmentNonEmpty(blocks: seq<string>)
    requires blocks != [] && AllClean(blocks)
    ensures MarkdownToBlocks(Join(blocks, "\n\n")) == blocks
  {
    var st := Fold(Segmenter([], []), Split(Join(blocks, "\n\n"), '\n'));
    assert st == Segmenter(blocks[..|blocks| - 1], Split(blocks[|blocks| - 1], '\n')) by {
      ResegmentFold(blocks);
    }
    assert Step(st, "") == Segmenter(blocks, []) by {
      assert CleanBlock(blocks[|blocks| - 1]);
      FlushLast(st, blocks);
    }
    assert Flush(st) == Step(st, "");
  }

  /** Re-segmenting the blocks joined with blank lines reproduces them. */
  lemma ResegmentIdempotent(markdown: string)
    ensures MarkdownToBlocks(Join(MarkdownToBlocks(markdown), "\n\n")) == MarkdownToBlocks(markdown)
  {
    BlocksAreCleanLines(markdown);
    ResegmentClean(MarkdownToBlocks(markdown));
  }

  // ---------------------------------------------------------------------------
  // Indentation and blank lines around the text

  /** Two loop states that hold the same blocks and gather lines that strip alike. */
  predicate Alike(a: Segmenter, b: Segmenter) {
    a.blocks == b.blocks && StripAll(a.current) == StripAll(b.current)
  }

  lemma FlushAlike(a: Segmenter, b: Segmenter)
    requires Alike(a, b)
    ensures Flush(a) == Flush(b)
  {
    assert |a.current| == |StripAll(a.current)| == |b.current|;
  }

  lemma StepAlike(a: Segmenter, b: Segmenter, la: string, lb: string)
    requires Alike(a, b) && Strip(la) == Strip(lb)
    ensures Alike(Step(a, la), Step(b, lb))
  {
    if Blank(la) {
      FlushAlike(a, b);
    } else {
      var ca, cb := a.current + [la], b.current + [lb];
      assert ca[..|ca| - 1] == a.current && cb[..|cb| - 1] == b.current;
      assert StripAll(ca) == StripAll(a.current) + [Strip(la)];
      assert StripAll(cb) == StripAll(b.current) + [Strip(lb)];
    }
  }

  lemma {:induction false} FoldAlike(la: seq<string>, lb: seq<string>)
    requires StripAll(la) == StripAll(lb)
    ensures Alike(Fold(Segmenter([], []), la), Fold(Segmenter([], []), lb))
  {
    if la != [] {
      var n := |la|;
      assert StripAll(la[..n - 1]) == StripAll(la)[..n - 1] && StripAll(lb[..n - 1]) == StripAll(lb)[..n - 1];
      FoldAlike(la[..n - 1], lb[..n - 1]);
      assert Strip(la[n - 1]) == StripAll(la)[n - 1] == Strip(lb[n - 1]);
      StepAlike(Fold(Segmenter([], []), la[..n - 1]), Fold(Segmenter([], []), lb[..n - 1]), la[n - 1], lb[n - 1]);
    }
  }

  /**
   * Only the stripped lines matter: two texts whose lines strip to the same
   * lines, one by one, have the same blocks, whatever their indentation.
   */
  lemma StrippedLinesSameBlocks(m1: string, m2: string)
    requires StripAll(Split(m1, '\n')) == StripAll(Split(m2, '\n'))
    ensures MarkdownToBlocks(m1) == MarkdownToBlocks(m2)
  {
    FoldAlike(Split(m1, '\n'), Split(m2, '\n'));
    FlushAlike(Fold(Segmenter([], []), Split(m1, '\n')), Fold(Segmenter([], []), Split(m2, '\n')));
  }

  /** A blank line at the start of the text changes no block. */
  lemma BlankLineBefore(blank: string, markdown: string)
    requires Blank(blank) && '\n' !in blank
    ensures MarkdownToBlocks(blank + "\n" + markdown) == MarkdownToBlocks(markdown)
  {
    var start := Segmenter([], []);
    var lines := Split(markdown, '\n');
    assert Split(blank + "\n" + markdown, '\n') == [blank] + lines by {
      assert blank + "\n" + markdown == blank + ['\n'] + markdown;
      SplitConcat(blank, markdown, '\n');
      SplitWithout(blank, '\n');
    }
    FoldAppend(start, [blank], lines);
    assert Fold(start, [blank]) == Step(start, blank) == start by {
      assert [blank][..0] == [];
    }
  }

  /** A blank line at the end of the text changes no block. */
  lemma BlankLineAfter(markdown: string, blank: string)
    requires Blank(blank) && '\n' !in blank
    ensures MarkdownToBlocks(markdown + "\n" + blank) == MarkdownToBlocks(markdown)
  {
    var start := Segmenter([], []);
    var lines := Split(markdown, '\n');
    assert Split(markdown + "\n" + blank, '\n') == lines + [blank] by {
      assert markdown + "\n" + blank == markdown + ['\n'] + blank;
      SplitConcat(markdown, blank, '\n');
      SplitWithout(blank, '\n');
    }
    var st := Fold(start, lines);
    assert Fold(start, lines + [blank]) == Step(st, blank) == Flush(st) by {
      assert (lines + [blank])[..|lines|] == lines;
    }
  }
}
