/** Inline text spans (src/textnode.py). */
module TextNodes {
  import opened Wrappers

  /**
   * The kinds of inline span. The Python code uses plain strings
   * (`text_type_text`, `text_type_bold`, ...); here they are a closed enumeration.
   */
  datatype TextType = Text | Bold | Italic | Code | Link | Image

  /** The string each kind stands for, as it appears in `repr`. */
  function TypeName(t: TextType): (r: string)
    ensures r != []
  {
    match t
    case Text => "text"
    case Bold => "bold"
    case Italic => "italic"
    case Code => "code"
    case Link => "link"
    case Image => "image"
  }

  /** A span: its text, its kind and, for links and images, a URL. */
  datatype TextNode = TextNode(text: string, textType: TextType, url: Option<string>)

  /** `TextNode(text, text_type)`: the url defaults to None, the text is kept as given (even empty). */
  function NewTextNode(text: string, textType: TextType): (n: TextNode)
    ensures n.text == text && n.textType == textType && n.url.None?
  {
    TextNode(text, textType, None)
  }

  /** `__eq__`: field-by-field comparison, which is exactly structural equality. */
  function Equals(a: TextNode, b: TextNode): (r: bool)
    ensures r <==> a == b
  {
    a.text == b.text && a.textType == b.textType && a.url == b.url
  }

  /** What an f-string prints for the optional url. */
  function UrlText(url: Option<string>): string
  {
    match url
    case None => "None"
    case Some(u) => u
  }

  /** `__repr__`: `TextNode(TEXT, TEXT_TYPE, URL)`. */
  function Repr(n: TextNode): (r: string)
    ensures |r| == 14 + |n.text| + |TypeName(n.textType)| + |UrlText(n.url)|
    ensures r[..9] == "TextNode(" && r[9..9 + |n.text|] == n.text && r[|r| - 1] == ')'
  {
    "TextNode(" + n.text + ", " + TypeName(n.textType) + ", " + UrlText(n.url) + ")"
  }
}
