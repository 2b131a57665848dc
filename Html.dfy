/** HTML output nodes (src/htmlnode.py). */
module Html {
  import opened Wrappers

  /** Attributes in insertion order, as a Python dict iterates them. */
  type Props = seq<(string, string)>

  datatype HtmlError =
    | NotImplemented   // `HTMLNode.to_html` raises NotImplementedError
    | MissingValue     // `LeafNode.to_html` raises ValueError

  /**
   * `HTMLNode` and its subclass `LeafNode`. Every field is optional, as in the
   * Python constructors; a leaf has no children field at all.
   */
  datatype HtmlNode =
    | Node(tag: Option<string>, value: Option<string>, children: Option<seq<HtmlNode>>, props: Option<Props>)
    | Leaf(tag: Option<string>, value: Option<string>, props: Option<Props>)

  /** `LeafNode(tag, value, props)`: the base constructor is called with children = None. */
  function NewLeaf(tag: Option<string>, value: Option<string>, props: Option<Props>): (n: HtmlNode)
    ensures n.Leaf? && n.tag == tag && n.value == value && n.props == props
    ensures Children(n).None?
  {
    Leaf(tag, value, props)
  }

  /** The `children` field; a `LeafNode` always has None. */
  function Children(n: HtmlNode): Option<seq<HtmlNode>>
  {
    match n
    case Node(_, _, children, _) => children
    case Leaf(_, _, _) => None
  }

  /** One attribute: ` key="value"`. */
  function Attribute(key: string, value: string): (r: string)
    ensures |r| > 0 && r[0] == ' '
  {
    " " + key + "=\"" + value + "\""
  }

  /** The attributes of `ps`, one after another, in order. */
  function AttributesHtml(ps: Props): string
  {
    if ps == [] then "" else AttributesHtml(ps[..|ps| - 1]) + Attribute(ps[|ps| - 1].0, ps[|ps| - 1].1)
  }

  /** What `props_to_html` returns. */
  function PropsHtml(props: Option<Props>): string
  {
    match props
    case None => ""
    case Some(ps) => AttributesHtml(ps)
  }

  /** `HTMLNode.props_to_html`: builds the attribute string with `+=` over `props.items()`. */
  method PropsToHtml(n: HtmlNode) returns (prop: string)
    ensures prop == PropsHtml(n.props)
  {
    if n.props.None? {
      return "";
    }
    var ps := n.props.value;
    prop := "";
    for i := 0 to |ps|
      invariant prop == AttributesHtml(ps[..i])
    {
      var (key, value) := ps[i];
      assert ps[..i + 1][..i] == ps[..i];
      prop := prop + Attribute(key, value);
    }
    assert ps[..|ps|] == ps;
  }

  /** Rendering attributes distributes over concatenation: the order of entries is kept. */
  lemma {:induction false} AttributesHtmlAppend(p: Props, q: Props)
    ensures AttributesHtml(p + q) == AttributesHtml(p) + AttributesHtml(q)
    decreases |q|
  {
    if q == [] {
      assert p + q == p;
    } else {
      var q', last := q[..|q| - 1], q[|q| - 1];
      var pq := p + q;
      AttributesHtmlAppend(p, q');
      assert pq[..|pq| - 1] == p + q';
      assert pq[|pq| - 1] == last;
      assert AttributesHtml(pq) == AttributesHtml(p + q') + Attribute(last.0, last.1);
      assert AttributesHtml(q) == AttributesHtml(q') + Attribute(last.0, last.1);
    }
  }

  /** The attribute string is empty exactly when there are no entries, and otherwise starts with a space. */
  lemma {:induction false} PropsHtmlShape(props: Option<Props>)
    ensures PropsHtml(props) == [] <==> props.None? || props.value == []
    ensures PropsHtml(props) != [] ==> PropsHtml(props)[0] == ' '
    decreases if props.Some? then |props.value| else 0
  {
    if props.Some? && props.value != [] {
      var ps := props.value;
      var k := |ps| - 1;
      AttributesHtmlAppend(ps[..k], [ps[k]]);
      assert ps[..k] + [ps[k]] == ps;
      assert AttributesHtml([ps[k]]) == Attribute(ps[k].0, ps[k].1);
      PropsHtmlShape(Some(ps[..k]));
    }
  }

  /** `<tag attrs>` */
  function OpenTag(tag: string, props: Option<Props>): string
  {
    "<" + tag + PropsHtml(props) + ">"
  }

  /** `</tag>` */
  function CloseTag(tag: string): string
  {
    "</" + tag + ">"
  }

  /**
   * `to_html`: the base class always raises; a leaf raises when it has no
   * value, renders an untagged value verbatim and wraps a tagged one.
   */
  function ToHtml(n: HtmlNode): (r: Result<string, HtmlError>)
    ensures n.Node? ==> r == Err(NotImplemented)
    ensures n.Leaf? ==> (r.Err? <==> n.value.None?)
    ensures r.Err? ==> n.Node? || r == Err(MissingValue)
    ensures r.Ok? && n.tag.None? ==> r.value == n.value.value
    ensures r.Ok? && n.tag.Some? ==>
      r.value == OpenTag(n.tag.value, n.props) + n.value.value + CloseTag(n.tag.value)
  {
    match n
    case Node(_, _, _, _) => Err(NotImplemented)
    case Leaf(tag, value, props) =>
      if value.None? then Err(MissingValue)
      else if tag.None? then Ok(value.value)
      else Ok(OpenTag(tag.value, props) + value.value + CloseTag(tag.value))
  }

  /** An untagged leaf ignores its attributes. */
  lemma {:induction false} UntaggedIgnoresProps(value: Option<string>, p: Option<Props>, q: Option<Props>)
    ensures ToHtml(Leaf(None, value, p)) == ToHtml(Leaf(None, value, q))
  {
  }

  /** Rendering a leaf loses nothing of its value: equal output means equal value. */
  lemma {:induction false} LeafValueRecoverable(tag: Option<string>, props: Option<Props>, v: string, w: string)
    requires ToHtml(Leaf(tag, Some(v), props)) == ToHtml(Leaf(tag, Some(w), props))
    ensures v == w
  {
    if tag.Some? {
      var o, c := OpenTag(tag.value, props), CloseTag(tag.value);
      var r := ToHtml(Leaf(tag, Some(v), props)).value;
      assert |v| == |w|;
      assert v == r[|o|..|o| + |v|];
      assert w == r[|o|..|o| + |w|];
    }
  }

  /** A tagged leaf's output starts with `<tag`, then an attribute string that is empty or starts with a space. */
  lemma {:induction false} TaggedLeafShape(tag: string, value: string, props: Option<Props>)
    ensures var r := ToHtml(Leaf(Some(tag), Some(value), props)).value;
      r[..1 + |tag|] == "<" + tag
      && (r[1 + |tag|] == '>' || r[1 + |tag|] == ' ')
      && r[|r| - |tag| - 3..] == "</" + tag + ">"
  {
    PropsHtmlShape(props);
    var r := ToHtml(Leaf(Some(tag), Some(value), props)).value;
    var a := PropsHtml(props);
    assert r == "<" + tag + a + ">" + value + "</" + tag + ">";
    if a != [] {
      assert r[1 + |tag|] == a[0];
    }
  }
}
