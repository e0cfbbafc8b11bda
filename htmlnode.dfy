/**
 * The output tree of the converter and its serialisation (`htmlnode.py`).
 *
 * `LeafNode` and `ParentNode` become the two constructors of one closed
 * datatype. A Python `dict` of attributes becomes the insertion-ordered list
 * of its (key, value) pairs; rendering sorts that list by key.
 */
module Html {
  import opened Wrappers

  /** The items of an attribute dictionary, in insertion order. */
  type Props = seq<(string, string)>

  datatype Node =
    | Leaf(tag: Option<string>, value: Option<string>, props: Props)
    | Parent(tag: Option<string>, children: seq<Node>, props: Props)

  /** The two `ValueError`s `to_html` raises. */
  datatype HtmlError =
    | MissingValue  // a leaf whose value is None
    | MissingTag    // a parent whose tag is None

  // ---------------------------------------------------------------------------
  // Attribute rendering in key order

  /** Python's ordering of `str`: lexicographic on code points, a prefix first. */
  predicate StrLe(a: string, b: string) {
    a == [] || (b != [] && (a[0] < b[0] || (a[0] == b[0] && StrLe(a[1..], b[1..]))))
  }

  lemma {:induction false} StrLeTotal(a: string, b: string)
    ensures StrLe(a, b) || StrLe(b, a)
  {
    if a != [] && b != [] && a[0] == b[0] {
      StrLeTotal(a[1..], b[1..]);
    }
  }

  lemma {:induction false} StrLeAntisymmetric(a: string, b: string)
    requires StrLe(a, b) && StrLe(b, a)
    ensures a == b
  {
    if a != [] && b != [] {
      StrLeAntisymmetric(a[1..], b[1..]);
      assert a == [a[0]] + a[1..];
      assert b == [b[0]] + b[1..];
    }
  }

  lemma {:induction false} StrLeTransitive(a: string, b: string, c: string)
    requires StrLe(a, b) && StrLe(b, c)
    ensures StrLe(a, c)
  {
    if a != [] && b != [] && c != [] && a[0] == b[0] == c[0] {
      StrLeTransitive(a[1..], b[1..], c[1..]);
    }
  }

  predicate SortedByKey(ps: Props) {
    forall i, j :: 0 <= i < j < |ps| ==> StrLe(ps[i].0, ps[j].0)
  }

  /** What a dictionary guarantees of its items. */
  predicate DistinctKeys(ps: Props) {
    forall i, j :: 0 <= i < j < |ps| ==> ps[i].0 != ps[j].0
  }

  function InsertByKey(p: (string, string), sorted: Props): (r: Props)
    ensures multiset(r) == multiset(sorted) + multiset{p}
    ensures forall x :: x in r <==> x == p || x in sorted
  {
    if sorted == [] || StrLe(p.0, sorted[0].0) then [p] + sorted
    else
      assert sorted == [sorted[0]] + sorted[1..];
      [sorted[0]] + InsertByKey(p, sorted[1..])
  }

  lemma {:induction false} InsertByKeySorted(p: (string, string), sorted: Props)
    requires SortedByKey(sorted)
    ensures SortedByKey(InsertByKey(p, sorted))
  {
    if sorted == [] {
    } else if StrLe(p.0, sorted[0].0) {
      forall j | 0 < j < |sorted| ensures StrLe(p.0, sorted[j].0) {
        StrLeTransitive(p.0, sorted[0].0, sorted[j].0);
      }
    } else {
      var tail := sorted[1..];
      var rest := InsertByKey(p, tail);
      InsertByKeySorted(p, tail);
      StrLeTotal(p.0, sorted[0].0);
      forall j | 0 <= j < |rest| ensures StrLe(sorted[0].0, rest[j].0) {
        assert rest[j] in rest;
        if rest[j] != p {
          var k :| 0 <= k < |tail| && tail[k] == rest[j];
          assert sorted[k + 1] == rest[j];
        }
      }
    }
  }

  /** `sorted(props.items())`, by key. */
  function SortByKey(ps: Props): (r: Props)
    ensures SortedByKey(r)
    ensures multiset(r) == multiset(ps)
  {
    if ps == [] then []
    else
      assert ps == [ps[0]] + ps[1..];
      InsertByKeySorted(ps[0], SortByKey(ps[1..]));
      InsertByKey(ps[0], SortByKey(ps[1..]))
  }

  /** One rendered attribute: a space, the key, `=` and the value in double quotes, unescaped. */
  function Attribute(p: (string, string)): string {
    " " + p.0 + "=\"" + p.1 + "\""
  }

  /** The attributes rendered in the given order. */
  function Attributes(ps: Props): string {
    if ps == [] then "" else Attribute(ps[0]) + Attributes(ps[1..])
  }

  /** `HTMLNode.props_to_html`. */
  function PropsToHtml(props: Props): string {
    Attributes(SortByKey(props))
  }

  /** Two key-sorted lists with distinct keys and the same items are the same list. */
  lemma {:induction false} SortedPermutationUnique(a: Props, b: Props)
    requires SortedByKey(a) && SortedByKey(b) && DistinctKeys(a)
    requires multiset(a) == multiset(b)
    ensures a == b
  {
    if a == [] {
      assert |multiset(b)| == 0;
    } else {
      assert b != [] by { assert a[0] in multiset(b); }
      assert a[0] == b[0] by { SameHead(a, b); }
      assert a[1..] == b[1..] by {
        TailMultiset(a);
        TailMultiset(b);
        SortedTail(a);
        SortedTail(b);
        SortedPermutationUnique(a[1..], b[1..]);
      }
      SameHeadAndTail(a, b);
    }
  }

  lemma SameHeadAndTail(a: Props, b: Props)
    requires a != [] && b != [] && a[0] == b[0] && a[1..] == b[1..]
    ensures a == b
  {
    assert a == [a[0]] + a[1..];
    assert b == [b[0]] + b[1..];
  }

  /** Such lists start with the same item: each head is the other's least key. */
  lemma SameHead(a: Props, b: Props)
    requires a != [] && b != []
    requires SortedByKey(a) && SortedByKey(b) && DistinctKeys(a)
    requires multiset(a) == multiset(b)
    ensures a[0] == b[0]
  {
    assert a[0] in multiset(b);
    var j :| 0 <= j < |b| && b[j] == a[0];
    assert b[0] in multiset(a);
    var i :| 0 <= i < |a| && a[i] == b[0];
    if i != 0 {
      // a[0] <= a[i] == b[0] <= b[j] == a[0], so a[0] and a[i] share a key
      StrLeAntisymmetric(a[0].0, a[i].0);
      assert false;
    }
  }

  lemma TailMultiset(a: Props)
    requires a != []
    ensures multiset(a[1..]) == multiset(a) - multiset{a[0]}
  {
    assert a == [a[0]] + a[1..];
  }

  lemma SortedTail(a: Props)
    requires a != [] && SortedByKey(a)
    ensures SortedByKey(a[1..])
    ensures DistinctKeys(a) ==> DistinctKeys(a[1..])
  {
    forall i, j | 0 <= i < j < |a| - 1 ensures a[1..][i] == a[i + 1] && a[1..][j] == a[j + 1] {
    }
  }

  /** With distinct keys, no item occurs twice. */
  lemma {:induction false} DistinctKeysCount(ps: Props, x: (string, string))
    requires DistinctKeys(ps)
    ensures multiset(ps)[x] <= 1
  {
    if ps != [] {
      assert ps == [ps[0]] + ps[1..];
      assert multiset(ps) == multiset{ps[0]} + multiset(ps[1..]);
      DistinctKeysCount(ps[1..], x);
    }
  }

  lemma RepeatedCount(s: Props, i: nat, j: nat)
    requires i < j < |s| && s[i] == s[j]
    ensures multiset(s)[s[i]] >= 2
  {
    assert s == s[..i] + [s[i]] + s[i + 1..j] + [s[j]] + s[j + 1..];
  }

  lemma DistinctKeysPermutation(ps: Props, qs: Props)
    requires DistinctKeys(ps) && multiset(ps) == multiset(qs)
    ensures DistinctKeys(qs)
  {
    forall i, j | 0 <= i < j < |qs| ensures qs[i].0 != qs[j].0 {
      if qs[i] == qs[j] {
        RepeatedCount(qs, i, j);
        DistinctKeysCount(ps, qs[i]);
      } else {
        assert qs[i] in multiset(ps) && qs[j] in multiset(ps);
        var i' :| 0 <= i' < |ps| && ps[i'] == qs[i];
        var j' :| 0 <= j' < |ps| && ps[j'] == qs[j];
        assert i' != j';
      }
    }
  }

  /**
   * `props_to_html` emits the attributes in ascending key order: for a
   * dictionary, its output is the rendering of the one key-sorted
   * arrangement of its items.
   */
  lemma PropsToHtmlIsSorted(props: Props, sorted: Props)
    requires DistinctKeys(props)
    requires SortedByKey(sorted) && multiset(sorted) == multiset(props)
    ensures PropsToHtml(props) == Attributes(sorted)
  {
    DistinctKeysPermutation(props, SortByKey(props));
    SortedPermutationUnique(SortByKey(props), sorted);
  }

  /** Insertion order never shows in the output: dictionaries with the same items render alike. */
  lemma PropsToHtmlOrderIndependent(p: Props, q: Props)
    requires DistinctKeys(p) && multiset(p) == multiset(q)
    ensures PropsToHtml(p) == PropsToHtml(q)
  {
    DistinctKeysPermutation(p, q);
    PropsToHtmlIsSorted(q, SortByKey(p));
    PropsToHtmlIsSorted(p, SortByKey(p));
  }

  // ---------------------------------------------------------------------------
  // Serialisation

  /** `<tag attrs>inner</tag>` with nothing escaped. */
  function Element(tag: string, props: Props, inner: string): string {
    "<" + tag + PropsToHtml(props) + ">" + inner + "</" + tag + ">"
  }

  /** An element without attributes is its tags around the inner HTML. */
  lemma PlainElement(tag: string, inner: string)
    ensures Element(tag, [], inner) == "<" + tag + ">" + inner + "</" + tag + ">"
  {
    assert SortByKey([]) == [];
    assert PropsToHtml([]) == "";
  }

  /** The concatenation of rendered children, or the first child's error. */
  function ConcatResults(rs: seq<Result<string, HtmlError>>): Result<string, HtmlError> {
    if rs == [] then Ok("")
    else
      match ConcatResults(rs[..|rs| - 1])
      case Err(e) => Err(e)
      case Ok(prefix) =>
        match rs[|rs| - 1]
        case Err(e) => Err(e)
        case Ok(last) => Ok(prefix + last)
  }

  /** `LeafNode.to_html` and `ParentNode.to_html`. */
  function ToHtml(n: Node): Result<string, HtmlError>
    decreases n
  {
    match n
    case Leaf(tag, value, props) =>
      if value.None? then Err(MissingValue)
      else if tag.None? then Ok(value.value)
      else Ok(Element(tag.value, props, value.value))
    case Parent(tag, children, props) =>
      if tag.None? then Err(MissingTag)
      else
        match ConcatResults(seq(|children|, i requires 0 <= i < |children| => ToHtml(children[i])))
        case Err(e) => Err(e)
        case Ok(inner) => Ok(Element(tag.value, props, inner))
  }

  /** Every leaf has a value and every parent a tag. */
  predicate WellFormed(n: Node) {
    match n
    case Leaf(_, value, _) => value.Some?
    case Parent(tag, children, _) =>
      tag.Some? && forall i :: 0 <= i < |children| ==> WellFormed(children[i])
  }

  lemma {:induction false} ConcatResultsOkIff(rs: seq<Result<string, HtmlError>>)
    ensures ConcatResults(rs).Ok? <==> forall i :: 0 <= i < |rs| ==> rs[i].Ok?
  {
    if rs != [] {
      var init := rs[..|rs| - 1];
      ConcatResultsOkIff(init);
      assert forall i :: 0 <= i < |init| ==> init[i] == rs[i];
    }
  }

  /** Serialisation fails exactly when some leaf lacks a value or some parent lacks a tag. */
  lemma {:induction false} ToHtmlOkIff(n: Node)
    ensures ToHtml(n).Ok? <==> WellFormed(n)
    decreases n
  {
    match n
    case Leaf(_, _, _) =>
    case Parent(tag, children, props) =>
      if tag.Some? {
        var rs := seq(|children|, i requires 0 <= i < |children| => ToHtml(children[i]));
        forall i | 0 <= i < |children| ensures rs[i].Ok? <==> WellFormed(children[i]) {
          ToHtmlOkIff(children[i]);
        }
        ConcatResultsOkIff(rs);
      }
  }

  /** A leaf without a value fails, whatever its tag and attributes. */
  lemma LeafWithoutValueFails(tag: Option<string>, props: Props)
    ensures ToHtml(Leaf(tag, None, props)) == Err(MissingValue)
  {
  }

  /** A tagless leaf renders its value verbatim and ignores its attributes. */
  lemma TaglessLeafIsVerbatim(value: string, props: Props)
    ensures ToHtml(Leaf(None, Some(value), props)) == Ok(value)
  {
  }

  /** A parent without a tag fails, even when its children are fine. */
  lemma ParentWithoutTagFails(children: seq<Node>, props: Props)
    ensures ToHtml(Parent(None, children, props)) == Err(MissingTag)
  {
  }

  /** A parent with no children renders as an empty element pair, not as an error. */
  lemma EmptyParentRenders(tag: string, props: Props)
    ensures ToHtml(Parent(Some(tag), [], props)) == Ok(Element(tag, props, ""))
  {
  }

  /**
   * Appending a child extends the rendered inner HTML by exactly that child's
   * rendering and leaves what the earlier children rendered unchanged.
   */
  lemma AppendedChildRendersLast(tag: string, children: seq<Node>, child: Node, props: Props, inner: string, last: string)
    requires ToHtml(Parent(Some(tag), children, props)) == Ok(Element(tag, props, inner))
    requires ToHtml(child) == Ok(last)
    ensures ToHtml(Parent(Some(tag), children + [child], props)) == Ok(Element(tag, props, inner + last))
  {
    var cs := children + [child];
    var rs := seq(|cs|, i requires 0 <= i < |cs| => ToHtml(cs[i]));
    var old_rs := seq(|children|, i requires 0 <= i < |children| => ToHtml(children[i]));
    assert rs[..|rs| - 1] == old_rs;
    ElementInjective(tag, props, inner, ConcatResults(old_rs).value);
  }

  lemma ElementInjective(tag: string, props: Props, a: string, b: string)
    requires Element(tag, props, a) == Element(tag, props, b)
    ensures a == b
  {
    var pre := "<" + tag + PropsToHtml(props) + ">";
    var post := "</" + tag + ">";
    assert Element(tag, props, a) == pre + a + post;
    assert Element(tag, props, b) == pre + b + post;
    assert a == (pre + a + post)[|pre|..|pre| + |a|];
    assert b == (pre + b + post)[|pre|..|pre| + |b|];
  }

  /** `ParentNode.to_html` as it runs: the children's HTML accumulated in a loop. */
  method Render(n: Node) returns (r: Result<string, HtmlError>)
    ensures r == ToHtml(n)
    decreases n
  {
    match n
    case Leaf(_, _, _) =>
      r := ToHtml(n);
    case Parent(tag, children, props) =>
      if tag.None? {
        return Err(MissingTag);
      }
      ghost var rs := seq(|children|, i requires 0 <= i < |children| => ToHtml(children[i]));
      var childrenHtml := "";
      var i := 0;
      while i < |children|
        invariant 0 <= i <= |children|
        invariant ConcatResults(rs[..i]) == Ok(childrenHtml)
      {
        var c := Render(children[i]);
        assert c == rs[i];
        ConcatResultsStep(rs, i, childrenHtml);
        if c.Err? {
          return Err(c.error);
        }
        childrenHtml := childrenHtml + c.value;
        i := i + 1;
      }
      assert ConcatResults(rs) == Ok(childrenHtml) by {
        assert rs[..i] == rs;
      }
      r := Ok(Element(tag.value, props, childrenHtml));
  }

  /** One more child result: an error ends the whole concatenation, HTML is appended. */
  lemma ConcatResultsStep(rs: seq<Result<string, HtmlError>>, i: nat, acc: string)
    requires i < |rs| && ConcatResults(rs[..i]) == Ok(acc)
    ensures rs[i].Ok? ==> ConcatResults(rs[..i + 1]) == Ok(acc + rs[i].value)
    ensures rs[i].Err? ==> ConcatResults(rs) == Err(rs[i].error)
  {
    assert rs[..i + 1][..i] == rs[..i];
    if rs[i].Err? {
      ConcatResultsErrSticks(rs, i + 1);
    }
  }

  lemma {:induction false} ConcatResultsErrSticks(rs: seq<Result<string, HtmlError>>, k: nat)
    requires k <= |rs| && ConcatResults(rs[..k]).Err?
    ensures ConcatResults(rs) == ConcatResults(rs[..k])
    decreases |rs| - k
  {
    if k < |rs| {
      assert rs[..k + 1][..k] == rs[..k];
      ConcatResultsErrSticks(rs, k + 1);
    } else {
      assert rs[..k] == rs;
    }
  }

  /** A `ParentNode` under construction: `add_child` appends to its children in place. */
  class ParentNode {
    var tag: Option<string>
    var children: seq<Node>
    var props: Props

    constructor (tag: Option<string>, children: seq<Node>, props: Props)
      ensures this.tag == tag && this.children == children && this.props == props
    {
      this.tag := tag;
      this.children := children;
      this.props := props;
    }

    /** `ParentNode.add_child`. */
    method AddChild(child: Node)
      modifies this
      ensures children == old(children) + [child]
      ensures tag == old(tag) && props == old(props)
    {
      children := children + [child];
    }

    /** The node this object currently describes. */
    function AsNode(): (n: Node)
      reads this
      ensures n.Parent? && n.tag == tag && n.children == children && n.props == props
    {
      Parent(tag, children, props)
    }
  }
}
