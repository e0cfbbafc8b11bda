/**
 * Inline spans and their mapping to HTML leaves. The module `textnode.py`
 * that defines them is not part of this model: the type, the node and the
 * mapping below follow what `test_htmlnode.py` and `test_textnode.py` state.
 */
module TextNodes {
  import opened Wrappers
  import opened Html

  datatype TextType = Normal | Bold | Italic | Code | Link | Image

  /** `TextNode(text, text_type, url=None)`, compared structurally. */
  datatype TextNode = TextNode(text: string, textType: TextType, url: Option<string>)

  /** A one-attribute dictionary holding the URL, or no attribute when there is none. */
  function UrlProp(key: string, url: Option<string>): Props {
    if url.Some? then [(key, url.value)] else []
  }

  /** `text_node_to_html_node`. */
  function TextNodeToHtmlNode(n: TextNode): (h: Node)
    ensures h.Leaf? && h.value.Some?
    ensures h.tag.None? <==> n.textType == Normal
    ensures n.textType != Image ==> h.value == Some(n.text)
  {
    match n.textType
    case Normal => Leaf(None, Some(n.text), [])
    case Bold => Leaf(Some("b"), Some(n.text), [])
    case Italic => Leaf(Some("i"), Some(n.text), [])
    case Code => Leaf(Some("code"), Some(n.text), [])
    case Link => Leaf(Some("a"), Some(n.text), UrlProp("href", n.url))
    case Image => Leaf(Some("img"), Some(""), UrlProp("src", n.url) + [("alt", n.text)])
  }

  /** The HTML a span stands for, written out for each text type (attributes in key order). */
  function SpanHtml(n: TextNode): string {
    match n.textType
    case Normal => n.text
    case Bold => "<b>" + n.text + "</b>"
    case Italic => "<i>" + n.text + "</i>"
    case Code => "<code>" + n.text + "</code>"
    case Link =>
      (if n.url.Some? then "<a href=\"" + n.url.value + "\">" else "<a>") + n.text + "</a>"
    case Image =>
      "<img alt=\"" + n.text + "\"" + (if n.url.Some? then " src=\"" + n.url.value + "\"" else "") + "></img>"
  }

  /**
   * Every span renders as `SpanHtml` says: normal text bare, bold in `<b>`,
   * italic in `<i>`, code in `<code>`, a link as an anchor and an image as an
   * empty `img` element.
   */
  lemma SpanRenders(n: TextNode)
    ensures ToHtml(TextNodeToHtmlNode(n)) == Ok(SpanHtml(n))
  {
    match n.textType
    case Normal =>
    case Bold => PlainTags("b", "<b>", "</b>", n.text);
    case Italic => PlainTags("i", "<i>", "</i>", n.text);
    case Code => PlainTags("code", "<code>", "</code>", n.text);
    case Link =>
      if n.url.Some? {
        LinkRendersAnchor(n.text, n.url.value);
      } else {
        PlainTags("a", "<a>", "</a>", n.text);
      }
    case Image =>
      if n.url.Some? {
        ImageWithUrl(n.text, n.url.value);
      } else {
        ImageWithoutUrl(n.text);
      }
  }

  /** The tags of an element without attributes, spelled out. */
  lemma PlainTags(tag: string, open: string, close: string, inner: string)
    requires open == "<" + tag + ">" && close == "</" + tag + ">"
    ensures Element(tag, [], inner) == open + inner + close
  {
    PlainElement(tag, inner);
  }

  /** An attribute spelled out: a space, the key, `="`, the value and `"`. */
  lemma AttributeSpelled(key: string, lead: string, value: string)
    requires lead == " " + key + "=\""
    ensures Attribute((key, value)) == lead + value + "\""
  {
  }

  lemma ImageWithUrl(alt: string, url: string)
    ensures ToHtml(TextNodeToHtmlNode(TextNode(alt, Image, Some(url)))) == Ok(SpanHtml(TextNode(alt, Image, Some(url))))
  {
    ImageRendersAltFirst(alt, url);
    var src := " src=\"" + url + "\"";
    AttributeSpelled("alt", " alt=\"", alt);
    AttributeSpelled("src", " src=\"", url);
    assert "<img" + Attribute(("alt", alt)) + Attribute(("src", url)) + "></img>"
        == "<img" + (" alt=\"" + alt + "\"") + src + "></img>";
    ImgAlt(alt, src);
  }

  /** An image without a URL keeps only its `alt` attribute. */
  lemma ImageWithoutUrl(alt: string)
    ensures ToHtml(TextNodeToHtmlNode(TextNode(alt, Image, None))) == Ok(SpanHtml(TextNode(alt, Image, None)))
  {
    var props := [("alt", alt)];
    assert PropsToHtml(props) == Attribute(("alt", alt)) by {
      assert props[1..] == [];
      assert SortByKey(props) == props;
      assert Attributes(props) == Attribute(props[0]) + Attributes([]);
    }
    var leaf := TextNodeToHtmlNode(TextNode(alt, Image, None));
    assert ToHtml(leaf) == Ok(Element("img", props, "")) by {
      assert leaf == Leaf(Some("img"), Some(""), props);
    }
    ImgTags(PropsToHtml(props));
    AttributeSpelled("alt", " alt=\"", alt);
    assert "<img" + PropsToHtml(props) + "></img>" == "<img" + (" alt=\"" + alt + "\"") + "" + "></img>";
    ImgAlt(alt, "");
  }

  lemma ImgAlt(alt: string, rest: string)
    ensures "<img" + (" alt=\"" + alt + "\"") + rest + "></img>" == "<img alt=\"" + alt + "\"" + rest + "></img>"
  {
    assert "<img" + " alt=\"" == "<img alt=\"";
  }

  /** A span never fails to render: its leaf always carries a value. */
  lemma SpanLeafRenders(n: TextNode)
    ensures ToHtml(TextNodeToHtmlNode(n)).Ok?
  {
  }

  /** A link renders as an anchor whose only attribute is its URL. */
  lemma LinkRendersAnchor(text: string, url: string)
    ensures ToHtml(TextNodeToHtmlNode(TextNode(text, Link, Some(url))))
         == Ok("<a href=\"" + url + "\">" + text + "</a>")
  {
    var props := [("href", url)];
    var attr := Attribute(("href", url));
    assert PropsToHtml(props) == attr by {
      assert props[1..] == [];
      assert SortByKey(props) == props;
      assert Attributes(props) == Attribute(props[0]) + Attributes([]);
    }
    assert ToHtml(TextNodeToHtmlNode(TextNode(text, Link, Some(url)))) == Ok(Element("a", props, text));
    AnchorTags(url, text);
  }

  lemma AnchorTags(url: string, text: string)
    ensures "<" + "a" + Attribute(("href", url)) + ">" + text + "</" + "a" + ">"
         == "<a href=\"" + url + "\">" + text + "</a>"
  {
  }

  /** An image renders `alt` before `src`, although `src` is inserted first. */
  lemma ImageRendersAltFirst(alt: string, url: string)
    ensures ToHtml(TextNodeToHtmlNode(TextNode(alt, Image, Some(url))))
         == Ok("<img" + Attribute(("alt", alt)) + Attribute(("src", url)) + "></img>")
  {
    var props := [("src", url), ("alt", alt)];
    var sorted := [("alt", alt), ("src", url)];
    ImagePropsSorted(alt, url);
    var attrs := Attribute(("alt", alt)) + Attribute(("src", url));
    assert PropsToHtml(props) == attrs by {
      assert sorted[1..] == [("src", url)] && sorted[1..][1..] == [];
      assert Attributes(sorted[1..]) == Attribute(("src", url)) + Attributes([]);
      assert Attributes(sorted) == Attribute(("alt", alt)) + Attributes(sorted[1..]);
    }
    var leaf := TextNodeToHtmlNode(TextNode(alt, Image, Some(url)));
    assert ToHtml(leaf) == Ok(Element("img", props, "")) by {
      assert leaf == Leaf(Some("img"), Some(""), props);
    }
    assert Element("img", props, "") == "<img" + attrs + "></img>" by {
      ImgTags(PropsToHtml(props));
    }
    Regroup("<img", Attribute(("alt", alt)), Attribute(("src", url)), "></img>");
  }

  lemma ImgTags(attrs: string)
    ensures "<" + "img" + attrs + ">" + "" + "</" + "img" + ">" == "<img" + attrs + "></img>"
  {
  }

  lemma Regroup(p: string, a: string, b: string, q: string)
    ensures p + (a + b) + q == p + a + b + q
  {
  }

  lemma ImagePropsSorted(alt: string, url: string)
    ensures SortByKey([("src", url), ("alt", alt)]) == [("alt", alt), ("src", url)]
  {
    var props := [("src", url), ("alt", alt)];
    assert !StrLe("src", "alt") by {
      assert "src"[0] == 's' && "alt"[0] == 'a';
    }
    assert props[1..][1..] == [];
    assert SortByKey(props[1..]) == [("alt", alt)];
    var one := [("alt", alt)];
    assert one[1..] == [];
    assert InsertByKey(("src", url), one[1..]) == [("src", url)];
    assert InsertByKey(("src", url), one) == [("alt", alt)] + [("src", url)];
  }

  /** The markdown that denotes a span: the inverse of inline parsing where no nesting collapsed. */
  function Markdown(n: TextNode): string {
    match n.textType
    case Normal => n.text
    case Bold => "**" + n.text + "**"
    case Italic => "_" + n.text + "_"
    case Code => "`" + n.text + "`"
    case Link => "[" + n.text + "](" + n.url.GetOr("") + ")"
    case Image => "![" + n.text + "](" + n.url.GetOr("") + ")"
  }

  function MarkdownOf(nodes: seq<TextNode>): string {
    if nodes == [] then "" else Markdown(nodes[0]) + MarkdownOf(nodes[1..])
  }

  /** The concatenated texts of the spans, all markup dropped. */
  function Texts(nodes: seq<TextNode>): string {
    if nodes == [] then "" else nodes[0].text + Texts(nodes[1..])
  }

  lemma {:induction false} MarkdownOfAppend(a: seq<TextNode>, b: seq<TextNode>)
    ensures MarkdownOf(a + b) == MarkdownOf(a) + MarkdownOf(b)
  {
    if a == [] {
      assert a + b == b;
    } else {
      assert (a + b)[1..] == a[1..] + b;
      MarkdownOfAppend(a[1..], b);
    }
  }

  lemma {:induction false} TextsAppend(a: seq<TextNode>, b: seq<TextNode>)
    ensures Texts(a + b) == Texts(a) + Texts(b)
  {
    if a == [] {
      assert a + b == b;
    } else {
      assert (a + b)[1..] == a[1..] + b;
      TextsAppend(a[1..], b);
    }
  }

  /** Every NORMAL span has non-empty text. */
  predicate NormalsNonEmpty(nodes: seq<TextNode>) {
    forall k :: 0 <= k < |nodes| ==> nodes[k].textType == Normal ==> nodes[k].text != ""
  }
}
