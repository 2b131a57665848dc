/** The delimiter pass of the inline tokenizer (src/inline_markdown.py). */
module InlineMarkdown {
  import opened Wrappers
  import opened PyStr
  import opened TextNodes

  datatype SplitError =
    | EmptySeparator               // `str.split("")` raises ValueError
    | InvalidSyntax(text: string)  // an unclosed delimiter: "Invalid Markdown Syntax in <text>"

  /** Even-indexed pieces are plain text, odd-indexed ones take the new type. */
  function PieceType(x: nat, textType: TextType): TextType
  {
    if x % 2 == 0 then Text else textType
  }

  /** The nodes the inner loop builds from the pieces of one split, empty pieces dropped. */
  function PieceNodes(pieces: seq<string>, textType: TextType): seq<TextNode>
  {
    if pieces == [] then []
    else
      var x := |pieces| - 1;
      PieceNodes(pieces[..x], textType)
        + (if pieces[x] == "" then [] else [NewTextNode(pieces[x], PieceType(x, textType))])
  }

  /** What splitting one node gives: the node itself when it is not plain text. */
  function SplitNode(node: TextNode, delimiter: string, textType: TextType): Result<seq<TextNode>, SplitError>
  {
    if node.textType != Text then Ok([node])
    else if delimiter == "" then Err(EmptySeparator)
    else
      var pieces := Split(node.text, delimiter);
      if |pieces| % 2 == 0 then Err(InvalidSyntax(node.text))
      else Ok(PieceNodes(pieces, textType))
  }

  /** Extends the output so far by one node's result; the earlier error wins. */
  function Extend(sofar: Result<seq<TextNode>, SplitError>, next: Result<seq<TextNode>, SplitError>): Result<seq<TextNode>, SplitError>
  {
    if sofar.Err? then sofar
    else if next.Err? then next
    else Ok(sofar.value + next.value)
  }

  /** The outer loop over the nodes' own results: their outputs run together in order, or the first error. */
  function Collect(rs: seq<Result<seq<TextNode>, SplitError>>): Result<seq<TextNode>, SplitError>
  {
    if rs == [] then Ok([]) else Extend(Collect(rs[..|rs| - 1]), rs[|rs| - 1])
  }

  /** Each node's own result, in order. */
  function Results(nodes: seq<TextNode>, delimiter: string, textType: TextType): (rs: seq<Result<seq<TextNode>, SplitError>>)
    ensures |rs| == |nodes|
    ensures forall i :: 0 <= i < |nodes| ==> rs[i] == SplitNode(nodes[i], delimiter, textType)
  {
    seq(|nodes|, i requires 0 <= i < |nodes| => SplitNode(nodes[i], delimiter, textType))
  }

  /** What `split_nodes_delimiter` returns: the nodes' results in order, or the first error. */
  function SplitNodes(nodes: seq<TextNode>, delimiter: string, textType: TextType): Result<seq<TextNode>, SplitError>
  {
    Collect(Results(nodes, delimiter, textType))
  }

  /** One more node: its result extends the output so far. */
  lemma {:induction false} SplitNodesSnoc(nodes: seq<TextNode>, i: nat, delimiter: string, textType: TextType)
    requires i < |nodes|
    ensures SplitNodes(nodes[..i + 1], delimiter, textType)
      == Extend(SplitNodes(nodes[..i], delimiter, textType), SplitNode(nodes[i], delimiter, textType))
  {
    var rs := Results(nodes[..i + 1], delimiter, textType);
    var prev := Results(nodes[..i], delimiter, textType);
    assert rs[..i] == prev;
    assert rs[i] == SplitNode(nodes[i], delimiter, textType);
  }

  /** One node alone: the call returns that node's result. */
  lemma {:induction false} SplitNodesOne(node: TextNode, delimiter: string, textType: TextType)
    ensures SplitNodes([node], delimiter, textType) == SplitNode(node, delimiter, textType)
  {
    var rs := Results([node], delimiter, textType);
    var r := SplitNode(node, delimiter, textType);
    assert rs[..0] == [] && rs[0] == r;
    assert Collect(rs) == Extend(Ok([]), r);
    if r.Ok? {
      assert [] + r.value == r.value;
    }
  }

  /** `split_nodes_delimiter(old_nodes, delimiter, text_type)` */
  method SplitNodesDelimiter(oldNodes: seq<TextNode>, delimiter: string, textType: TextType)
    returns (r: Result<seq<TextNode>, SplitError>)
    ensures r == SplitNodes(oldNodes, delimiter, textType)
  {
    var outputNodes := [];
    for i := 0 to |oldNodes|
      invariant SplitNodes(oldNodes[..i], delimiter, textType) == Ok(outputNodes)
    {
      var node := oldNodes[i];
      SplitNodesSnoc(oldNodes, i, delimiter, textType);
      if node.textType != Text {
        outputNodes := outputNodes + [node];
        continue;
      }
      if delimiter == "" {
        FirstErrorWins(oldNodes, i, delimiter, textType);
        return Err(EmptySeparator);
      }
      var splitText := Split(node.text, delimiter);
      if |splitText| % 2 == 0 {
        FirstErrorWins(oldNodes, i, delimiter, textType);
        return Err(InvalidSyntax(node.text));
      }
      var splitNodes := PiecesToNodes(splitText, textType);
      outputNodes := outputNodes + splitNodes;
    }
    assert oldNodes[..|oldNodes|] == oldNodes;
    return Ok(outputNodes);
  }

  /** The inner loop of `split_nodes_delimiter`: the non-empty pieces as nodes, odd-numbered ones of the new type. */
  method PiecesToNodes(splitText: seq<string>, textType: TextType) returns (splitNodes: seq<TextNode>)
    ensures splitNodes == PieceNodes(splitText, textType)
  {
    splitNodes := [];
    for x := 0 to |splitText|
      invariant splitNodes == PieceNodes(splitText[..x], textType)
    {
      assert splitText[..x + 1][..x] == splitText[..x];
      if splitText[x] == "" {
        continue;
      }
      if x % 2 == 0 {
        splitNodes := splitNodes + [NewTextNode(splitText[x], Text)];
      } else {
        splitNodes := splitNodes + [NewTextNode(splitText[x], textType)];
      }
    }
    assert splitText[..|splitText|] == splitText;
  }

  /** Once a result fails, the results after it do not change the outcome. */
  lemma {:induction false} CollectFirstError(rs: seq<Result<seq<TextNode>, SplitError>>, i: nat)
    requires i < |rs| && Collect(rs[..i]).Ok? && rs[i].Err?
    ensures Collect(rs) == rs[i]
    decreases |rs|
  {
    var init := rs[..|rs| - 1];
    if i == |rs| - 1 {
      assert init == rs[..i];
    } else {
      assert init[..i] == rs[..i];
      CollectFirstError(init, i);
    }
  }

  /** The outcome fails exactly when some result fails, and then with the first failing one. */
  lemma {:induction false} CollectFails(rs: seq<Result<seq<TextNode>, SplitError>>)
    ensures Collect(rs).Err? <==> exists i :: 0 <= i < |rs| && rs[i].Err?
    ensures Collect(rs).Err? ==>
      exists i :: 0 <= i < |rs| && rs[i] == Collect(rs) && forall j :: 0 <= j < i ==> rs[j].Ok?
    decreases |rs|
  {
    if rs != [] {
      var n := |rs| - 1;
      var init := rs[..n];
      CollectFails(init);
      assert forall i :: 0 <= i < n ==> init[i] == rs[i];
    }
  }

  /** The outcome of two runs of results, one after the other, is their outputs run together. */
  lemma {:induction false} CollectAppend(a: seq<Result<seq<TextNode>, SplitError>>, b: seq<Result<seq<TextNode>, SplitError>>)
    requires Collect(a).Ok? && Collect(b).Ok?
    ensures Collect(a + b) == Ok(Collect(a).value + Collect(b).value)
    decreases |b|
  {
    if b == [] {
      assert a + b == a;
      assert Collect(a).value + [] == Collect(a).value;
    } else {
      var b', last := b[..|b| - 1], b[|b| - 1];
      var ab := a + b;
      assert ab[..|ab| - 1] == a + b';
      assert ab[|ab| - 1] == last;
      CollectAppend(a, b');
      var ra, rb := Collect(a).value, Collect(b').value;
      assert (ra + rb) + last.value == ra + (rb + last.value);
    }
  }

  /** The first node that fails decides the error of the whole call. */
  lemma {:induction false} FirstErrorWins(nodes: seq<TextNode>, i: nat, delimiter: string, textType: TextType)
    requires i < |nodes|
    requires SplitNodes(nodes[..i], delimiter, textType).Ok?
    requires SplitNode(nodes[i], delimiter, textType).Err?
    ensures SplitNodes(nodes, delimiter, textType) == SplitNode(nodes[i], delimiter, textType)
  {
    var rs := Results(nodes, delimiter, textType);
    assert rs[..i] == Results(nodes[..i], delimiter, textType);
    CollectFirstError(rs, i);
  }

  /**
   * The call fails exactly when some node fails, and then with the error of the
   * first failing node.
   */
  lemma {:induction false} SplitNodesFails(nodes: seq<TextNode>, delimiter: string, textType: TextType)
    ensures SplitNodes(nodes, delimiter, textType).Err? <==>
      exists i :: 0 <= i < |nodes| && SplitNode(nodes[i], delimiter, textType).Err?
    ensures SplitNodes(nodes, delimiter, textType).Err? ==>
      exists i :: 0 <= i < |nodes| && SplitNode(nodes[i], delimiter, textType) == SplitNodes(nodes, delimiter, textType)
        && forall j :: 0 <= j < i ==> SplitNode(nodes[j], delimiter, textType).Ok?
  {
    var rs := Results(nodes, delimiter, textType);
    CollectFails(rs);
    if SplitNodes(nodes, delimiter, textType).Err? {
      var i :| 0 <= i < |rs| && rs[i] == Collect(rs) && forall j :: 0 <= j < i ==> rs[j].Ok?;
      assert SplitNode(nodes[i], delimiter, textType) == SplitNodes(nodes, delimiter, textType);
    }
  }

  /** Splitting a concatenation concatenates the results: each input's nodes form one contiguous run, in input order. */
  lemma {:induction false} SplitNodesAppend(a: seq<TextNode>, b: seq<TextNode>, delimiter: string, textType: TextType)
    requires SplitNodes(a, delimiter, textType).Ok? && SplitNodes(b, delimiter, textType).Ok?
    ensures SplitNodes(a + b, delimiter, textType)
      == Ok(SplitNodes(a, delimiter, textType).value + SplitNodes(b, delimiter, textType).value)
  {
    var ra, rb := Results(a, delimiter, textType), Results(b, delimiter, textType);
    assert Results(a + b, delimiter, textType) == ra + rb;
    CollectAppend(ra, rb);
  }

  /** Nodes that are not plain text are copied through unchanged. */
  lemma {:induction false} NonTextCopied(node: TextNode, delimiter: string, textType: TextType)
    requires node.textType != Text
    ensures SplitNodes([node], delimiter, textType) == Ok([node])
  {
    SplitNodesOne(node, delimiter, textType);
  }

  /** A plain-text node fails exactly when the delimiter occurs an odd number of times (or is empty). */
  lemma {:induction false} SplitNodeParity(node: TextNode, delimiter: string, textType: TextType)
    requires node.textType == Text && delimiter != ""
    ensures SplitNode(node, delimiter, textType).Err? <==> Count(node.text, delimiter) % 2 == 1
    ensures SplitNode(node, delimiter, textType).Err? ==>
      SplitNode(node, delimiter, textType).error == InvalidSyntax(node.text)
  {
    SplitLength(node.text, delimiter);
  }

  /**
   * The nodes built from `pieces` are, in order, exactly the non-empty pieces,
   * each plain when its index is even and of the new type when it is odd.
   */
  predicate SelectsPieces(pieces: seq<string>, textType: TextType, out: seq<TextNode>, idx: seq<nat>)
  {
    && |idx| == |out|
    && (forall k :: 0 <= k < |idx| ==>
          idx[k] < |pieces| && pieces[idx[k]] != ""
          && out[k] == TextNode(pieces[idx[k]], PieceType(idx[k], textType), None))
    && (forall k, l :: 0 <= k < l < |idx| ==> idx[k] < idx[l])
    && (forall x :: 0 <= x < |pieces| && pieces[x] != "" ==> x in idx)
  }

  lemma {:induction false} PieceNodesSelect(pieces: seq<string>, textType: TextType)
    ensures SelectsPieces(pieces, textType, PieceNodes(pieces, textType), NonEmptyIndices(pieces))
    ensures forall k :: 0 <= k < |NonEmptyIndices(pieces)| ==> NonEmptyIndices(pieces)[k] < |pieces|
    decreases |pieces|
  {
    if pieces != [] {
      var x := |pieces| - 1;
      var init := pieces[..x];
      PieceNodesSelect(init, textType);
      assert forall y :: 0 <= y < x ==> init[y] == pieces[y];
    }
  }

  /** The concatenated text of a run of nodes. */
  function Texts(nodes: seq<TextNode>): string
  {
    if nodes == [] then "" else Texts(nodes[..|nodes| - 1]) + nodes[|nodes| - 1].text
  }

  /** Running pieces together, one more piece at the end. */
  lemma {:induction false} JoinLast(init: seq<string>, last: string)
    ensures Join(init + [last], "") == Join(init, "") + last
  {
    if init != [] {
      JoinSnoc(init, last, "");
    } else {
      assert init + [last] == [last];
    }
  }

  /** Dropping empty pieces does not change their concatenation. */
  lemma {:induction false} PieceNodesTexts(pieces: seq<string>, textType: TextType)
    ensures Texts(PieceNodes(pieces, textType)) == Join(pieces, "")
    decreases |pieces|
  {
    if pieces != [] {
      var x := |pieces| - 1;
      var init, last := pieces[..x], pieces[x];
      var prev := PieceNodes(init, textType);
      PieceNodesTexts(init, textType);
      assert Texts(PieceNodes(pieces, textType)) == Texts(prev) + last by {
        if last != "" {
          var n := NewTextNode(last, PieceType(x, textType));
          assert PieceNodes(pieces, textType) == prev + [n];
          assert (prev + [n])[..|prev|] == prev;
        } else {
          assert PieceNodes(pieces, textType) == prev;
          assert Texts(prev) + last == Texts(prev);
        }
      }
      assert init + [last] == pieces;
      JoinLast(init, last);
    }
  }

  /**
   * Splitting a plain-text node succeeds with nodes whose texts, run together,
   * are the node's text with every occurrence of the delimiter removed; none
   * of those nodes is empty, and each is plain or of the new type.
   */
  lemma {:induction false} SplitNodeRemovesDelimiters(node: TextNode, delimiter: string, textType: TextType)
    requires node.textType == Text && delimiter != ""
    requires SplitNode(node, delimiter, textType).Ok?
    ensures var out := SplitNode(node, delimiter, textType).value;
      Texts(out) == RemoveAll(node.text, delimiter)
      && forall k :: 0 <= k < |out| ==>
           out[k].text != "" && out[k].url.None? && (out[k].textType == Text || out[k].textType == textType)
  {
    var pieces := Split(node.text, delimiter);
    PieceNodesTexts(pieces, textType);
    ConcatSplit(node.text, delimiter);
    PieceNodesSelect(pieces, textType);
  }

  /** A non-empty plain-text node without the delimiter comes back as one plain node with the same text. */
  lemma {:induction false} NoDelimiterUnchanged(node: TextNode, delimiter: string, textType: TextType)
    requires node.textType == Text && delimiter != "" && node.text != ""
    requires Count(node.text, delimiter) == 0
    ensures SplitNode(node, delimiter, textType) == Ok([NewTextNode(node.text, Text)])
  {
    SplitLength(node.text, delimiter);
    JoinSplit(node.text, delimiter);
    var pieces := Split(node.text, delimiter);
    assert pieces == [node.text];
    assert pieces[..0] == [];
    assert PieceNodes(pieces, textType) == [] + [NewTextNode(node.text, PieceType(0, textType))];
    assert SplitNode(node, delimiter, textType) == Ok(PieceNodes(pieces, textType));
    assert PieceType(0, textType) == Text;
    assert [] + [NewTextNode(node.text, Text)] == [NewTextNode(node.text, Text)];
  }

  /** `y*z*` holds no `**` when y and z are non-empty runs without `*`. */
  lemma {:induction false} NoDoubleStar(y: string, z: string)
    requires '*' !in y && '*' !in z && z != ""
    ensures forall i :: !OccursAt(y + "*" + z + "*", "**", i)
  {
    var r := y + "*" + z + "*";
    forall i ensures !OccursAt(r, "**", i) {
      if 0 <= i && i + 2 <= |r| {
        var w := r[i..i + 2];
        assert w[0] == r[i] && w[1] == r[i + 1];
        if i < |y| {
          assert r[i] == y[i];
        } else if i == |y| {
          assert r[i + 1] == z[0];
        } else {
          assert r[i] == z[i - |y| - 1];
        }
      }
    }
  }

  /** The `**` pass on `**x**rest` (rest without `**`): a bold x and a plain rest. */
  lemma {:induction false} BoldPass(x: string, rest: string)
    requires x != "" && rest != "" && '*' !in x
    requires forall i :: !OccursAt(rest, "**", i)
    ensures SplitNodes([NewTextNode("**" + x + "**" + rest, Text)], "**", Bold)
      == Ok([TextNode(x, Bold, None), TextNode(rest, Text, None)])
  {
    var text := "**" + x + "**" + rest;
    assert text == "" + "**" + (x + "**" + rest);
    SplitAfterFreePrefix("", "**", x + "**" + rest);
    SplitAfterFreePrefix(x, "**", rest);
    SplitNoOccurrence(rest, "**");
    var pieces := ["", x, rest];
    assert Split(text, "**") == pieces;
    assert pieces[..2] == ["", x] && ["", x][..1] == [""] && [""][..0] == [];
    var first := [TextNode(x, Bold, None), TextNode(rest, Text, None)];
    assert PieceNodes([""], Bold) == [];
    assert PieceNodes(["", x], Bold) == [TextNode(x, Bold, None)];
    assert PieceNodes(pieces, Bold) == first;
    var node := NewTextNode(text, Text);
    assert SplitNode(node, "**", Bold) == Ok(first);
    SplitNodesOne(node, "**", Bold);
  }

  /** The `*` pass on a plain `y*z*`: a plain y and an italic z. */
  lemma {:induction false} ItalicPass(y: string, z: string)
    requires y != "" && z != "" && '*' !in y && '*' !in z
    ensures SplitNode(TextNode(y + "*" + z + "*", Text, None), "*", Italic)
      == Ok([TextNode(y, Text, None), TextNode(z, Italic, None)])
  {
    var r := y + "*" + z + "*";
    assert r == y + "*" + (z + "*" + "");
    SplitAfterFreePrefix(y, "*", z + "*" + "");
    SplitAfterFreePrefix(z, "*", "");
    var pieces := [y, z, ""];
    assert Split(r, "*") == pieces;
    assert pieces[..2] == [y, z] && [y, z][..1] == [y] && [y][..0] == [];
    assert PieceNodes([y], Italic) == [TextNode(y, Text, None)];
    assert PieceNodes([y, z], Italic) == [TextNode(y, Text, None), TextNode(z, Italic, None)];
    assert PieceNodes(pieces, Italic) == PieceNodes([y, z], Italic) + [];
    assert PieceNodes([y, z], Italic) + [] == PieceNodes([y, z], Italic);
    assert SplitNode(TextNode(r, Text, None), "*", Italic) == Ok(PieceNodes(pieces, Italic));
  }

  /**
   * The `**` pass followed by the `*` pass separates bold from italic:
   * `**x**y*z*` becomes a bold x, a plain y and an italic z.
   */
  lemma {:induction false} BoldThenItalic(x: string, y: string, z: string)
    requires x != "" && y != "" && z != ""
    requires '*' !in x && '*' !in y && '*' !in z
    ensures var bold := SplitNodes([NewTextNode("**" + x + "**" + y + "*" + z + "*", Text)], "**", Bold);
      bold.Ok? && SplitNodes(bold.value, "*", Italic)
        == Ok([TextNode(x, Bold, None), TextNode(y, Text, None), TextNode(z, Italic, None)])
  {
    var r := y + "*" + z + "*";
    NoDoubleStar(y, z);
    var text := "**" + x + "**" + y + "*" + z + "*";
    assert text == "**" + x + "**" + r;
    BoldPass(x, r);
    var first := [TextNode(x, Bold, None), TextNode(r, Text, None)];
    assert SplitNodes([NewTextNode(text, Text)], "**", Bold) == Ok(first);
    ItalicPass(y, z);
    SplitNodesOne(first[1], "*", Italic);
    NonTextCopied(first[0], "*", Italic);
    assert [first[0]] + [first[1]] == first;
    SplitNodesAppend([first[0]], [first[1]], "*", Italic);
    assert [first[0]] + [TextNode(y, Text, None), TextNode(z, Italic, None)]
      == [TextNode(x, Bold, None), TextNode(y, Text, None), TextNode(z, Italic, None)];
  }
}
