# staticSiteGen core in Dafny

A Dafny model of the Markdown-to-HTML core of staticSiteGen, a small Python static site generator,
with proofs about it:

- **Text spans** (`src/textnode.py`): `TextNode` is a datatype with structural equality and its `repr`.
- **HTML leaves** (`src/htmlnode.py`):
  - `props_to_html` is a loop proved against an attribute-rendering function;
  - the base `to_html` always fails;
  - `LeafNode.to_html` renders raw text or `<tag attrs>value</tag>`, and fails without a value.
- **Delimiter splitting** (`src/inline_markdown.py`):
  - `split_nodes_delimiter` is a pair of nested loops proved against a specification function;
  - that function is built on a model of Python's `str.split`;
  - the main theorems are the parity error rule, the "delimiters removed" round trip, and the alternation of plain and typed pieces.
- **Image and link extraction** (`src/markdown_util.py`):
  - the two fixed regular expressions are modelled as a left-to-right scanner with lazy captures;
  - its result is proved to be the *only* list of matches that meets a specification stated in terms of substrings.
- **Block segmentation and classification** (`src/block_markdown.py`):
  - `markdown_to_blocks` and `is_quote` are loops proved against specification functions;
  - the slice tests of `is_heading` and `is_code` are related to plain characterisations;
  - `block_to_block_type` is total.
- **Title extraction** (`src/site_gen.py`): the first line that, once stripped, starts with `"# "` gives the title; otherwise an error.

The Python built-ins the core calls are in module `PyStr`. They are modelled character by character:

- `str.split` with a non-empty separator;
- `str.strip` over ASCII whitespace;
- clamped slices `s[0:n]` and `s[-n:]`;
- `str.startswith`.

The core calls no other string method. `PyStr` also defines three specification functions:

- `Join` is `sep.join`;
- `Count` is the non-overlapping `str.count`;
- `RemoveAll` is `str.replace(sub, "")`.

They exist only to state what `Split` computes, in `JoinSplit`, `SplitLength` and `ConcatSplit`.

Raised exceptions become the `Err` side of a `Result`.

Modules, one per file: `Wrappers`, `PyStr`, `TextNodes`, `Html`, `InlineMarkdown`, `MarkdownUtil`,
`BlockMarkdown` and `SiteGen`.

Points about the code that a reader could easily miss:

- Only segments that are exactly `""` are dropped by `markdown_to_blocks`; a segment of whitespace only becomes the block `""` (`BlockMarkdown.BlankSegmentKept`).
- The lazy first capture `(.*?)` can hold a `]` that is not immediately followed by `(`: `[a]b](c)` yields `("a]b", "c")` (`MarkdownUtil.AltMayHoldBracket`).
- `split_nodes_delimiter` builds every piece as a new `TextNode(text, text_type_text)` or `TextNode(text, text_type)` (src/inline_markdown.py:24-27), so the url of every plain node it splits is dropped, even when the node holds no delimiter (`InlineMarkdown.NoDelimiterUnchanged`, `InlineMarkdown.PieceNodesSelect`).
- `inline_markdown.py` and `markdown_util.py` import `text_type_*` constants that `textnode.py` does not define. The model uses an enumeration instead.

## Model

| member | source | states |
|---|---|---|
| PyStr.Split | src/inline_markdown.py:17 | `str.split` with a non-empty separator never returns an empty list: there is always at least one piece; what the pieces are is stated by `JoinSplit`, `SplitAtFirst` and `SplitNoOccurrence` |
| PyStr.JoinSplit | src/inline_markdown.py:17 | joining the pieces of `str.split` with the separator gives back the text |
| PyStr.SplitLength | src/inline_markdown.py:17-18 | the number of pieces is the number of non-overlapping occurrences plus one |
| PyStr.ConcatSplit | src/inline_markdown.py:17 | the pieces run together are the text with every occurrence of the separator removed |
| PyStr.SplitAtFirst | src/inline_markdown.py:17 | `split` cuts at the leftmost occurrence and goes on after it |
| PyStr.SplitNoOccurrence | src/inline_markdown.py:17 | a text without the separator splits into itself alone |
| PyStr.SplitAfterFreePrefix | src/block_markdown.py:10 | a prefix free of the separator's first character is the first piece |
| PyStr.StartsWith | src/site_gen.py:19 | `s.startswith(p)` holds exactly when `s[0:len(p)] == p` |
| PyStr.Prefix | src/block_markdown.py:28 | `s[0:n]` clamps: its length is min(n, len) and it is the start of `s` |
| PyStr.Suffix | src/block_markdown.py:44 | `s[-n:]` clamps: its length is min(n, len) and it is the end of `s` |
| PyStr.StripSpec | src/block_markdown.py:14 | `strip` returns a substring with only whitespace before and after it |
| PyStr.Strip | src/block_markdown.py:14 | `strip` never lengthens its input, and neither end of what it returns is whitespace |
| PyStr.StripUnique | src/block_markdown.py:14 | a substring bounded that way is exactly what `strip` returns |
| PyStr.StripEmpty | src/block_markdown.py:14 | `strip` gives `""` exactly on whitespace-only input |
| TextNodes.NewTextNode | src/textnode.py:17-20 | the constructor keeps text and type as given, and the url defaults to None |
| TextNodes.Equals | src/textnode.py:22-27 | `__eq__` holds exactly when text, type and url are all equal |
| TextNodes.Repr | src/textnode.py:29-30 | `repr` is `TextNode(` + text + `, ` + type + `, ` + url + `)`, with its length accounted for |
| Html.NewLeaf | src/htmlnode.py:32-34 | a leaf keeps tag, value and props, and its children are None |
| Html.Attribute | src/htmlnode.py:25 | one attribute renders as ` key="value"`, starting with a space |
| Html.PropsToHtml | src/htmlnode.py:20-26 | the loop returns the attributes rendered in insertion order, or `""` for None |
| Html.AttributesHtmlAppend | src/htmlnode.py:23-26 | rendering distributes over concatenation of the entries, so the order is kept |
| Html.PropsHtmlShape | src/htmlnode.py:21-26 | the attribute string is empty exactly for None or no entries, and otherwise starts with a space |
| Html.ToHtml | src/htmlnode.py:17-41 | the base node always fails; a leaf fails exactly when its value is None; an untagged leaf gives its value; a tagged one gives `<tag attrs>value</tag>` |
| Html.UntaggedIgnoresProps | src/htmlnode.py:39-40 | an untagged leaf's output does not depend on its props |
| Html.LeafValueRecoverable | src/htmlnode.py:36-41 | two leaves with the same tag and props render alike only if their values are equal |
| Html.TaggedLeafShape | src/htmlnode.py:41 | tagged output starts `<tag` followed by `>` or a space, and ends `</tag>` |
| InlineMarkdown.SplitNodesDelimiter | src/inline_markdown.py:10-29 | the nested loops return the per-node results concatenated in order, or the first error |
| InlineMarkdown.SplitNodesFails | src/inline_markdown.py:18-19 | the call fails exactly when some node fails, and the error is the first failing node's |
| InlineMarkdown.FirstErrorWins | src/inline_markdown.py:12-19 | once a node fails, later nodes do not change the error |
| InlineMarkdown.SplitNodesAppend | src/inline_markdown.py:11-29 | the output for a concatenation is the two outputs concatenated: each node's nodes form one contiguous run |
| InlineMarkdown.NonTextCopied | src/inline_markdown.py:13-15 | a node that is not plain text comes back unchanged |
| InlineMarkdown.PiecesToNodes | src/inline_markdown.py:20-27 | the inner loop returns the non-empty pieces as nodes in order, those at even indices plain and those at odd ones of the new type |
| InlineMarkdown.SplitNodeParity | src/inline_markdown.py:17-19 | splitting a text node fails exactly when the delimiter occurs an odd number of times, with the node's text in the error |
| InlineMarkdown.PieceNodesSelect | src/inline_markdown.py:20-27 | the nodes are the non-empty pieces in order, plain at even indices and of the new type at odd ones, with no url |
| InlineMarkdown.PieceNodesTexts | src/inline_markdown.py:20-27 | dropping empty pieces does not change the concatenated text |
| InlineMarkdown.SplitNodeRemovesDelimiters | src/inline_markdown.py:17-27 | on success the node texts run together are the input text with every delimiter removed; none is empty and each is plain or of the new type |
| InlineMarkdown.NoDelimiterUnchanged | src/inline_markdown.py:17-25 | a non-empty plain node without the delimiter comes back as one plain node with the same text and no url |
| InlineMarkdown.BoldThenItalic | src/test_inline_markdown.py:87-97 | the `**` pass then the `*` pass turn `**x**y*z*` into bold x, plain y, italic z |
| MarkdownUtil.UrlEndSpec | src/markdown_util.py:23 | the lazy URL capture ends at the first `)` unless a newline comes first |
| MarkdownUtil.AltEndSpec | src/markdown_util.py:23 | the lazy first capture is the shortest one followed by `](` and a URL |
| MarkdownUtil.MatchAtSpec | src/markdown_util.py:23 | what is found at p has the pattern's shape and the shortest first capture; nothing is found exactly when nothing matches at p |
| MarkdownUtil.Scan | src/markdown_util.py:24 | every match the scanner reports lies inside the text, at or after where the search started |
| MarkdownUtil.SpecMatchesInOrder | src/markdown_util.py:22-28 | the specified list holds matches at or after the start, each ending before any later one starts |
| MarkdownUtil.ScanMeetsSpec | src/markdown_util.py:22-28 | the scanner meets the substring specification of `findall`, with no match in the gaps it skipped |
| MarkdownUtil.FindAllUnique | src/markdown_util.py:22-28 | at most one list of matches meets that specification |
| MarkdownUtil.FindAllIsSpecified | src/markdown_util.py:22-28 | any list of matches meeting the specification gives exactly what `findall` returns |
| MarkdownUtil.ExtractMarkdownImages | src/markdown_util.py:22-24 | findall of the image pattern: the captures of the scanner's matches, empty exactly when no `![a](u)` match exists in the text |
| MarkdownUtil.ExtractMarkdownLinks | src/markdown_util.py:26-28 | findall of the link pattern: the captures of the scanner's matches, empty exactly when no `[a](u)` match without `!` before it exists |
| MarkdownUtil.MatchText | src/markdown_util.py:23 | a match covers the opener, the first capture, `](`, the URL and `)` |
| MarkdownUtil.FoundPairsOccur | src/markdown_util.py:22-28 | each pair (a, u) occurs as `![a](u)`, or as `[a](u)` with no `!` before it; captures hold no newline and the URL holds no `)` |
| MarkdownUtil.FindAllEmpty | src/markdown_util.py:22-28 | the result is empty exactly when the pattern matches nowhere |
| MarkdownUtil.LinksSkipImages | src/markdown_util.py:27 | no link match has `!` just before its `[` |
| MarkdownUtil.NoBangNoImages | src/markdown_util.py:22-24 | text without `!` yields no images, whatever links it holds |
| MarkdownUtil.AltMayHoldBracket | src/markdown_util.py:27-28 | `[a]b](c)` gives the link `("a]b", "c")`: the lazy first capture takes a `]` that no `(` follows |
| MarkdownUtil.ImagesAndLinksApart | src/markdown_util.py:22-28 | a link match never starts at the `!` or the `[` of an image match |
| BlockMarkdown.Blocks | src/block_markdown.py:10-15 | there are never more blocks than segments |
| BlockMarkdown.MarkdownToBlocks | src/block_markdown.py:9-16 | the loop returns the stripped non-empty segments of the `"\n\n"` split |
| BlockMarkdown.BlocksSelect | src/block_markdown.py:9-16 | the blocks are, in order, the stripped segments that were not exactly `""`, and every such segment gives one |
| BlockMarkdown.BlocksTrimmed | src/block_markdown.py:14 | no block starts or ends with whitespace |
| BlockMarkdown.ExtraNewlineStripped | src/block_markdown.py:9-16 | three newlines between two lines give two blocks, the third newline stripped |
| BlockMarkdown.EmptySegmentDropped | src/block_markdown.py:13 | four newlines between two lines give two blocks, the empty middle segment dropped |
| BlockMarkdown.BlankSegmentKept | src/block_markdown.py:13-15 | a whitespace-only segment survives as an empty block |
| BlockMarkdown.IsHeading | src/block_markdown.py:27-40 | the six literal prefix tests in the source's order; a block that passes starts with `#` followed by `#` or a space |
| BlockMarkdown.MarkerPrefix | src/block_markdown.py:28-39 | a block starts with n `#` and a space exactly when it has n leading `#` followed by a space |
| BlockMarkdown.HeadingLevels | src/block_markdown.py:27-40 | `is_heading` holds exactly when 1 to 6 leading `#` are followed by a space |
| BlockMarkdown.IsCode | src/block_markdown.py:42-46 | the two slice tests; a block that passes has at least three characters and starts and ends with a backtick |
| BlockMarkdown.CodeFences | src/block_markdown.py:42-46 | `is_code` holds exactly when the first and last three characters are backticks; the block of three backticks is code |
| BlockMarkdown.QuotedLineFirst | src/block_markdown.py:51 | `line[0:1] == ">"` holds exactly when the line is non-empty and starts with `>` |
| BlockMarkdown.IsQuote | src/block_markdown.py:48-53 | the loop with early return holds exactly when every line starts with `>` |
| BlockMarkdown.QuoteLines | src/block_markdown.py:48-53 | every line starts with `>` exactly when the block starts with `>` and every newline is followed by `>` |
| BlockMarkdown.BlockToBlockType | src/block_markdown.py:18-25 | the classifier tests heading, then code, then quote, and otherwise gives paragraph |
| BlockMarkdown.ClassifyRange | src/block_markdown.py:18-25 | the list types are never produced; `""` is a paragraph; a block not starting with `#`, a backtick or `>` is a paragraph |
| BlockMarkdown.TestsExclusive | src/block_markdown.py:18-25 | no block passes two of the heading, code and quote tests, so their order never decides the type |
| SiteGen.ExtractTitle | src/site_gen.py:16-21 | the loop returns the first title line's text after `"# "`, or the missing-title error |
| SiteGen.TitleMissing | src/site_gen.py:21 | the error comes exactly when no stripped line starts with `"# "` |
| SiteGen.TitleFirstLine | src/site_gen.py:17-20 | the first title line wins over any later one |
| SiteGen.TitleTrimmed | src/site_gen.py:18-20 | the title never ends in whitespace |
| SiteGen.LeadingSpaceIgnored | src/site_gen.py:18 | whitespace before the marker changes neither whether a line is a title line nor the title |
| SiteGen.OnlyLevelOne | src/site_gen.py:19 | a line starting `##` after stripping, or just `#`, is never a title line |
| SiteGen.FirstLineTitle | src/site_gen.py:16-20 | an indented `# title` on the first line gives that title, whatever follows |
| SiteGen.StripOfMarker | src/site_gen.py:18 | `strip` leaves `"# " + title` unchanged when the title does not end in whitespace |

## Left out

- `src/file_system_utilities.py` and `src/main.py` are not part of this model. They do file-system I/O and program wiring.
- `ParentNode`, `split_nodes_image`, `split_nodes_link`, `text_to_textnodes`, `get_heading_info` and `get_quote_info` are not modelled. They are not in the modelled files.
- `is_unordered_list` and `is_ordered_list` are stubs that return None and are never called. They are not modelled; the list block types are never produced.
- `HTMLNode.__repr__` and `LeafNode.__repr__` are left out. They are debugging output.
- `TextNodes.Repr`: the type names that `repr` prints (`"text"`, `"bold"`, `"italic"`, `"code"`, `"link"`, `"image"`) are the model's own choice, since `textnode.py` defines no type constants.
- `TextNodes.TextType` is a closed enumeration. A `TextNode` whose text_type is an arbitrary string, the empty string included, cannot be represented.
- `Html.Props`: props are a sequence of pairs in insertion order. A Python dict has no duplicate keys, and the model does not enforce that.
- `Html.PropsToHtml`: the test `self.props is {}` is always false in Python because it compares identity with a fresh dict. An empty dict then goes through the loop and gives `""`, which the model computes the same way.
- `PyStr.Strip` removes only space, `\t`, `\n`, `\r`, `\x0b` and `\x0c`. Python's `str.strip` also removes the ASCII separators `\x1c` to `\x1f` and other Unicode whitespace, which the model keeps.
- `PyStr.Split` requires a non-empty separator. `InlineMarkdown.SplitNode` turns an empty delimiter into the `EmptySeparator` error, the ValueError Python raises.
- The `re` engine is not modelled in general. Only the two fixed patterns are modelled, as scanners.
- Exception messages are not modelled. Errors are datatype values; `InvalidSyntax` keeps the offending text.
