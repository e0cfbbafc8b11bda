/**
 * `split_nodes_delimiter`: every NORMAL node is cut at each occurrence of a
 * delimiter string; the pieces alternate between NORMAL and the given type.
 * A node whose text splits into an even number of pieces (an unmatched
 * delimiter) is kept whole. Python's `str.split` refuses an empty
 * separator, which is the one error the operation can raise.
 */
module InlineDelimiter {
  import opened Wrappers
  import opened Strings
  import opened TextNodes

  /** `s[j..]` begins with `sep`. */
  predicate OccursAt(s: string, sep: string, j: nat) {
    j <= |s| && StartsWith(s[j..], sep)
  }

  predicate Occurs(s: string, sep: string) {
    exists j: nat :: j <= |s| && OccursAt(s, sep, j)
  }

  /** `s.split(sep)` for a non-empty separator: cut at the leftmost occurrence, then continue after it. */
  function SplitOn(s: string, sep: string): (parts: seq<string>)
    requires sep != ""
    ensures |parts| >= 1
    decreases |s|
  {
    if StartsWith(s, sep) then [""] + SplitOn(s[|sep|..], sep)
    else if s == [] then [""]
    else
      var rest := SplitOn(s[1..], sep);
      [[s[0]] + rest[0]] + rest[1..]
  }

  lemma {:induction false} SplitOnJoin(s: string, sep: string)
    requires sep != ""
    ensures Join(SplitOn(s, sep), sep) == s
    decreases |s|
  {
    if StartsWith(s, sep) {
      var rest := SplitOn(s[|sep|..], sep);
      assert Join(rest, sep) == s[|sep|..] by {
        SplitOnJoin(s[|sep|..], sep);
      }
      assert Join([""] + rest, sep) == "" + sep + Join(rest, sep) by {
        assert ([""] + rest)[1..] == rest;
      }
      assert s == sep + s[|sep|..];
    } else if s != [] {
      var rest := SplitOn(s[1..], sep);
      assert Join(rest, sep) == s[1..] by {
        SplitOnJoin(s[1..], sep);
      }
      JoinConsFirst(s[0], rest, sep);
      assert s == [s[0]] + s[1..];
    }
  }

  /** Prefixing the first piece with a character prefixes the joined text with it. */
  lemma JoinConsFirst(c: char, rest: seq<string>, sep: string)
    requires rest != []
    ensures Join([[c] + rest[0]] + rest[1..], sep) == [c] + Join(rest, sep)
  {
    var parts := [[c] + rest[0]] + rest[1..];
    if |rest| > 1 {
      assert parts[1..] == rest[1..];
    }
  }

  /** No piece contains the separator: every occurrence was cut. */
  lemma {:induction false} SplitOnPiecesClean(s: string, sep: string)
    requires sep != ""
    ensures forall k :: 0 <= k < |SplitOn(s, sep)| ==> !Occurs(SplitOn(s, sep)[k], sep)
    decreases |s|
  {
    var parts := SplitOn(s, sep);
    if StartsWith(s, sep) {
      SplitOnPiecesClean(s[|sep|..], sep);
      var rest := SplitOn(s[|sep|..], sep);
      forall k | 0 <= k < |parts| ensures !Occurs(parts[k], sep) {
        if k > 0 {
          assert parts[k] == rest[k - 1];
        }
      }
    } else if s != [] {
      SplitOnPiecesClean(s[1..], sep);
      var rest := SplitOn(s[1..], sep);
      SplitOnFirst(s[1..], sep);
      FirstPieceClean(s, sep, rest[0]);
      forall k | 0 <= k < |parts| ensures !Occurs(parts[k], sep) {
        if k > 0 {
          assert parts[k] == rest[k];
        }
      }
    }
  }

  /** The first piece is what precedes the first occurrence. */
  lemma {:induction false} SplitOnFirst(s: string, sep: string)
    requires sep != ""
    ensures StartsWith(s, SplitOn(s, sep)[0])
    decreases |s|
  {
    if !StartsWith(s, sep) && s != [] {
      SplitOnFirst(s[1..], sep);
      var first := SplitOn(s[1..], sep)[0];
      assert s[..|first| + 1] == [s[0]] + s[1..][..|first|];
    }
  }

  /** Prepending a character that does not start the separator keeps a separator-free piece clean. */
  lemma FirstPieceClean(s: string, sep: string, piece: string)
    requires sep != "" && s != [] && !StartsWith(s, sep)
    requires !Occurs(piece, sep)
    requires StartsWith(s[1..], piece)
    ensures !Occurs([s[0]] + piece, sep)
  {
    var p := [s[0]] + piece;
    forall j: nat | j <= |p| && OccursAt(p, sep, j) ensures false {
      if j > 0 {
        assert p[j..] == piece[j - 1..];
        assert j - 1 <= |piece| && OccursAt(piece, sep, j - 1);
      }
    }
  }

  /** The pieces with odd index take the new type; the node's URL is not carried over. */
  function Alternate(parts: seq<string>, t: TextType): (r: seq<TextNode>)
    ensures |r| == |parts|
    ensures forall i :: 0 <= i < |r| ==> r[i] == TextNode(parts[i], if i % 2 == 0 then Normal else t, None)
  {
    seq(|parts|, i requires 0 <= i < |parts| => TextNode(parts[i], if i % 2 == 0 then Normal else t, None))
  }

  /** One step of the node loop. */
  function SplitNodeDelimiter(n: TextNode, delimiter: string, t: TextType): seq<TextNode>
    requires delimiter != ""
  {
    if n.textType != Normal then [n]
    else
      var parts := SplitOn(n.text, delimiter);
      if |parts| % 2 == 0 then [n] else Alternate(parts, t)
  }

  datatype SplitError = EmptySeparator

  /** `split_nodes_delimiter(old_nodes, delimiter, text_type)`. */
  function SplitNodesDelimiter(nodes: seq<TextNode>, delimiter: string, t: TextType): Result<seq<TextNode>, SplitError> {
    if nodes == [] then Ok([])
    else
      match SplitNodesDelimiter(nodes[..|nodes| - 1], delimiter, t)
      case Err(e) => Err(e)
      case Ok(prev) =>
        var n := nodes[|nodes| - 1];
        if n.textType != Normal then Ok(prev + [n])
        else if delimiter == "" then Err(EmptySeparator)
        else Ok(prev + SplitNodeDelimiter(n, delimiter, t))
  }

  // ---------------------------------------------------------------------------
  // Properties

  /** The operation fails exactly when the delimiter is empty and some node is NORMAL. */
  lemma {:induction false} SplitNodesDelimiterFails(nodes: seq<TextNode>, delimiter: string, t: TextType)
    ensures SplitNodesDelimiter(nodes, delimiter, t).Err? <==>
      delimiter == "" && exists k :: 0 <= k < |nodes| && nodes[k].textType == Normal
    decreases |nodes|
  {
    if nodes != [] {
      var init := nodes[..|nodes| - 1];
      SplitNodesDelimiterFails(init, delimiter, t);
      if exists k :: 0 <= k < |init| && init[k].textType == Normal {
        var k :| 0 <= k < |init| && init[k].textType == Normal;
        assert nodes[k] == init[k];
      }
      if exists k :: 0 <= k < |nodes| && nodes[k].textType == Normal {
        var k :| 0 <= k < |nodes| && nodes[k].textType == Normal;
        if k < |init| { assert init[k] == nodes[k]; }
      }
    }
  }

  /** With no NORMAL node in the list, nothing happens, whatever the delimiter. */
  lemma {:induction false} TypedNodesPassThrough(nodes: seq<TextNode>, delimiter: string, t: TextType)
    requires forall k :: 0 <= k < |nodes| ==> nodes[k].textType != Normal
    ensures SplitNodesDelimiter(nodes, delimiter, t) == Ok(nodes)
    decreases |nodes|
  {
    if nodes != [] {
      TypedNodesPassThrough(nodes[..|nodes| - 1], delimiter, t);
      assert nodes[..|nodes| - 1] + [nodes[|nodes| - 1]] == nodes;
    }
  }

  /** An unmatched delimiter (an even number of pieces) leaves the node as it was, and raises nothing. */
  lemma UnmatchedDelimiterKept(n: TextNode, delimiter: string, t: TextType)
    requires delimiter != "" && n.textType == Normal && |SplitOn(n.text, delimiter)| % 2 == 0
    ensures SplitNodesDelimiter([n], delimiter, t) == Ok([n])
  {
    assert [n][..|[n]| - 1] == [];
    assert SplitNodesDelimiter([], delimiter, t) == Ok([]);
    assert SplitNodeDelimiter(n, delimiter, t) == [n];
    assert [] + [n] == [n];
  }

  /** The markup that, read with the given delimiter, denotes a node of type `t`. */
  function Delimited(n: TextNode, delimiter: string, t: TextType): string {
    if n.textType == t then delimiter + n.text + delimiter else n.text
  }

  function DelimitedOf(nodes: seq<TextNode>, delimiter: string, t: TextType): string {
    if nodes == [] then "" else DelimitedOf(nodes[..|nodes| - 1], delimiter, t) + Delimited(nodes[|nodes| - 1], delimiter, t)
  }

  lemma {:induction false} DelimitedOfAppend(a: seq<TextNode>, b: seq<TextNode>, delimiter: string, t: TextType)
    ensures DelimitedOf(a + b, delimiter, t) == DelimitedOf(a, delimiter, t) + DelimitedOf(b, delimiter, t)
    decreases |b|
  {
    if b == [] {
      assert a + b == a;
    } else {
      var init := b[..|b| - 1];
      assert (a + b)[..|a + b| - 1] == a + init;
      assert (a + b)[|a + b| - 1] == b[|b| - 1];
      DelimitedOfAppend(a, init, delimiter, t);
    }
  }

  lemma AlternatePrefix(parts: seq<string>, m: nat, t: TextType)
    requires m <= |parts|
    ensures Alternate(parts[..m], t) == Alternate(parts, t)[..m]
  {
  }

  lemma AlternateLastTwo(parts: seq<string>, delimiter: string, t: TextType)
    requires |parts| >= 3 && |parts| % 2 == 1 && t != Normal
    ensures DelimitedOf(Alternate(parts, t), delimiter, t)
         == DelimitedOf(Alternate(parts[..|parts| - 2], t), delimiter, t)
            + (delimiter + parts[|parts| - 2] + delimiter) + parts[|parts| - 1]
  {
    var n := |parts|;
    var alt := Alternate(parts, t);
    var front := DelimitedOf(alt[..n - 2], delimiter, t);
    assert DelimitedOf(alt, delimiter, t) == DelimitedOf(alt[..n - 1], delimiter, t) + Delimited(alt[n - 1], delimiter, t);
    assert DelimitedOf(alt[..n - 1], delimiter, t) == front + Delimited(alt[n - 2], delimiter, t) by {
      assert alt[..n - 1][..n - 2] == alt[..n - 2];
      assert alt[..n - 1][n - 2] == alt[n - 2];
    }
    assert Delimited(alt[n - 2], delimiter, t) == delimiter + parts[n - 2] + delimiter by {
      assert (n - 2) % 2 == 1;
    }
    assert Delimited(alt[n - 1], delimiter, t) == parts[n - 1] by {
      assert (n - 1) % 2 == 0;
    }
    assert alt[..n - 2] == Alternate(parts[..n - 2], t) by {
      AlternatePrefix(parts, n - 2, t);
    }
  }

  lemma JoinLastTwo(parts: seq<string>, delimiter: string)
    requires |parts| >= 3
    ensures Join(parts, delimiter) == Join(parts[..|parts| - 2], delimiter) + delimiter + (parts[|parts| - 2] + delimiter + parts[|parts| - 1])
  {
    var n := |parts|;
    var tail := [parts[n - 2], parts[n - 1]];
    assert parts == parts[..n - 2] + tail;
    JoinAppend(parts[..n - 2], tail, delimiter);
    assert tail[1..] == [parts[n - 1]];
  }

  lemma Regroup(x: string, d: string, p: string, q: string)
    ensures x + (d + p + d) + q == x + d + (p + d + q)
  {
  }

  /** Re-inserting the delimiter around the typed pieces of an odd split gives the text back. */
  lemma {:induction false} AlternateRoundTrip(parts: seq<string>, delimiter: string, t: TextType)
    requires |parts| % 2 == 1 && t != Normal
    ensures DelimitedOf(Alternate(parts, t), delimiter, t) == Join(parts, delimiter)
    decreases |parts|
  {
    var n := |parts|;
    if n > 1 {
      var front, p, q := parts[..n - 2], parts[n - 2], parts[n - 1];
      var x := Join(front, delimiter);
      assert DelimitedOf(Alternate(parts, t), delimiter, t) == x + (delimiter + p + delimiter) + q by {
        AlternateRoundTrip(front, delimiter, t);
        AlternateLastTwo(parts, delimiter, t);
      }
      assert Join(parts, delimiter) == x + delimiter + (p + delimiter + q) by {
        JoinLastTwo(parts, delimiter);
      }
      Regroup(x, delimiter, p, q);
    } else {
      assert Alternate(parts, t)[..0] == [];
    }
  }

  /**
   * Nothing is lost: for nodes of other types than `t`, re-inserting the
   * delimiter around every node of type `t` gives the original text back.
   */
  lemma {:induction false} SplitNodesDelimiterRoundTrip(nodes: seq<TextNode>, delimiter: string, t: TextType)
    requires delimiter != "" && t != Normal
    requires forall k :: 0 <= k < |nodes| ==> nodes[k].textType != t
    ensures SplitNodesDelimiter(nodes, delimiter, t).Ok?
    ensures DelimitedOf(SplitNodesDelimiter(nodes, delimiter, t).value, delimiter, t) == DelimitedOf(nodes, delimiter, t)
    decreases |nodes|
  {
    if nodes != [] {
      var init, last := nodes[..|nodes| - 1], nodes[|nodes| - 1];
      SplitNodesDelimiterRoundTrip(init, delimiter, t);
      var prev := SplitNodesDelimiter(init, delimiter, t).value;
      var piece := SplitNodeDelimiter(last, delimiter, t);
      if last.textType == Normal {
        var parts := SplitOn(last.text, delimiter);
        SplitOnJoin(last.text, delimiter);
        if |parts| % 2 == 1 {
          AlternateRoundTrip(parts, delimiter, t);
        }
      }
      assert [last][..0] == [];
      assert DelimitedOf(piece, delimiter, t) == Delimited(last, delimiter, t);
      DelimitedOfAppend(prev, piece, delimiter, t);
    }
  }

  /** A NORMAL node that comes out of a split holds no delimiter any more. */
  lemma SplitNodeDelimiterClean(n: TextNode, delimiter: string, t: TextType, k: nat)
    requires delimiter != "" && n.textType == Normal && t != Normal
    requires |SplitOn(n.text, delimiter)| % 2 == 1
    requires k < |SplitNodeDelimiter(n, delimiter, t)|
    ensures !Occurs(SplitNodeDelimiter(n, delimiter, t)[k].text, delimiter)
    ensures SplitNodeDelimiter(n, delimiter, t)[k].textType == if k % 2 == 0 then Normal else t
  {
    SplitOnPiecesClean(n.text, delimiter);
  }

  // ---------------------------------------------------------------------------
  // The loop as the source runs it

  /** `split_nodes_delimiter`. */
  method SplitNodesDelimiterLoop(oldNodes: seq<TextNode>, delimiter: string, textType: TextType)
    returns (r: Result<seq<TextNode>, SplitError>)
    ensures r == SplitNodesDelimiter(oldNodes, delimiter, textType)
  {
    var newNodes := [];
    for i := 0 to |oldNodes|
      invariant SplitNodesDelimiter(oldNodes[..i], delimiter, textType) == Ok(newNodes)
    {
      var node := oldNodes[i];
      SplitNodesDelimiterStep(oldNodes, i, delimiter, textType, newNodes);
      if node.textType != Normal {
        newNodes := newNodes + [node];
        continue;
      }
      if delimiter == "" {
        PrefixFails(oldNodes, i, delimiter, textType);
        return Err(EmptySeparator);
      }
      var parts := SplitOn(node.text, delimiter);
      if |parts| % 2 == 0 {
        newNodes := newNodes + [node];
        continue;
      }
      ghost var start := newNodes;
      for j := 0 to |parts|
        invariant newNodes == start + Alternate(parts[..j], textType)
      {
        var piece;
        if j % 2 == 0 {
          piece := TextNode(parts[j], Normal, None);
        } else {
          piece := TextNode(parts[j], textType, None);
        }
        AlternateSnoc(parts, j, textType);
        SnocAssoc(start, Alternate(parts[..j], textType), piece);
        newNodes := newNodes + [piece];
      }
      assert newNodes == start + SplitNodeDelimiter(node, delimiter, textType) by {
        assert parts[..|parts|] == parts;
      }
    }
    assert SplitNodesDelimiter(oldNodes, delimiter, textType) == Ok(newNodes) by {
      assert oldNodes[..|oldNodes|] == oldNodes;
    }
    return Ok(newNodes);
  }

  /** One more node of the list, as the loop takes it. */
  lemma SplitNodesDelimiterStep(nodes: seq<TextNode>, i: nat, delimiter: string, t: TextType, prev: seq<TextNode>)
    requires i < |nodes| && SplitNodesDelimiter(nodes[..i], delimiter, t) == Ok(prev)
    ensures SplitNodesDelimiter(nodes[..i + 1], delimiter, t)
         == if nodes[i].textType != Normal then Ok(prev + [nodes[i]])
            else if delimiter == "" then Err(EmptySeparator)
            else Ok(prev + SplitNodeDelimiter(nodes[i], delimiter, t))
  {
    assert nodes[..i + 1][..i] == nodes[..i];
  }

  lemma SnocAssoc(a: seq<TextNode>, b: seq<TextNode>, x: TextNode)
    ensures a + b + [x] == a + (b + [x])
  {
  }

  /** One more piece of an alternation. */
  lemma AlternateSnoc(parts: seq<string>, j: nat, t: TextType)
    requires j < |parts|
    ensures Alternate(parts[..j + 1], t) == Alternate(parts[..j], t) + [TextNode(parts[j], if j % 2 == 0 then Normal else t, None)]
  {
    AlternatePrefix(parts, j, t);
    AlternatePrefix(parts, j + 1, t);
    assert Alternate(parts, t)[..j + 1] == Alternate(parts, t)[..j] + [Alternate(parts, t)[j]];
  }

  /** Once a NORMAL node is met with an empty delimiter, the whole operation fails. */
  lemma {:induction false} PrefixFails(nodes: seq<TextNode>, i: nat, delimiter: string, t: TextType)
    requires i < |nodes| && nodes[i].textType == Normal && delimiter == ""
    ensures SplitNodesDelimiter(nodes, delimiter, t) == Err(EmptySeparator)
  {
    SplitNodesDelimiterFails(nodes, delimiter, t);
    var r := SplitNodesDelimiter(nodes, delimiter, t);
    assert r.error.EmptySeparator?;
  }
}
