/** Block segmentation and classification (src/block_markdown.py). */
module BlockMarkdown {
  import opened PyStr

  /** The block kinds; the source names them "paragraph", "heading", ... */
  datatype BlockType = Paragraph | Heading | Code | Quote | UnorderedList | OrderedList

  // ---------------------------------------------------------------------------
  // markdown_to_blocks
  // ---------------------------------------------------------------------------

  /**
   * The blocks made from the segments between blank lines: each segment that
   * is not exactly empty, stripped. A segment of whitespace only is kept, as "".
   */
  function Blocks(segments: seq<string>): (r: seq<string>)
    ensures |r| <= |segments|
  {
    if segments == [] then []
    else
      var x := |segments| - 1;
      Blocks(segments[..x]) + (if segments[x] == "" then [] else [Strip(segments[x])])
  }

  /** `markdown_to_blocks(markdown)` */
  method MarkdownToBlocks(markdown: string) returns (output: seq<string>)
    ensures output == Blocks(Split(markdown, "\n\n"))
  {
    var segments := Split(markdown, "\n\n");
    output := [];
    for i := 0 to |segments|
      invariant output == Blocks(segments[..i])
    {
      assert segments[..i + 1][..i] == segments[..i];
      var segment := segments[i];
      if segment != "" {
        segment := Strip(segment);
        output := output + [segment];
      }
    }
    assert segments[..|segments|] == segments;
  }

  /**
   * The blocks are, in order, the stripped non-empty segments: block k comes
   * from segment idx[k], and every non-empty segment gives a block.
   */
  predicate SelectsSegments(segments: seq<string>, blocks: seq<string>, idx: seq<nat>)
  {
    && |idx| == |blocks|
    && (forall k :: 0 <= k < |idx| ==>
          idx[k] < |segments| && segments[idx[k]] != "" && blocks[k] == Strip(segments[idx[k]]))
    && (forall k, l :: 0 <= k < l < |idx| ==> idx[k] < idx[l])
    && (forall x :: 0 <= x < |segments| && segments[x] != "" ==> x in idx)
  }

  lemma {:induction false} BlocksSelect(segments: seq<string>)
    ensures SelectsSegments(segments, Blocks(segments), NonEmptyIndices(segments))
    decreases |segments|
  {
    if segments != [] {
      var x := |segments| - 1;
      var init := segments[..x];
      BlocksSelect(init);
      var prev, idx := Blocks(init), NonEmptyIndices(init);
      if segments[x] == "" {
        assert Blocks(segments) == prev && NonEmptyIndices(segments) == idx;
        SelectsEmptyLast(segments, prev, idx);
      } else {
        assert Blocks(segments) == prev + [Strip(segments[x])];
        assert NonEmptyIndices(segments) == idx + [x];
        SelectsLast(segments, prev, idx);
      }
    }
  }

  /** An empty last segment adds no block. */
  lemma {:induction false} SelectsEmptyLast(segments: seq<string>, blocks: seq<string>, idx: seq<nat>)
    requires segments != [] && segments[|segments| - 1] == ""
    requires SelectsSegments(segments[..|segments| - 1], blocks, idx)
    ensures SelectsSegments(segments, blocks, idx)
  {
    var init := segments[..|segments| - 1];
    assert forall y :: 0 <= y < |init| ==> init[y] == segments[y];
  }

  /** A non-empty last segment adds its stripped text as the last block. */
  lemma {:induction false} SelectsLast(segments: seq<string>, blocks: seq<string>, idx: seq<nat>)
    requires segments != [] && segments[|segments| - 1] != ""
    requires SelectsSegments(segments[..|segments| - 1], blocks, idx)
    ensures SelectsSegments(segments, blocks + [Strip(segments[|segments| - 1])], idx + [|segments| - 1])
  {
    var init := segments[..|segments| - 1];
    assert forall y :: 0 <= y < |init| ==> init[y] == segments[y];
  }

  /** No block has whitespace at either end. */
  lemma {:induction false} BlocksTrimmed(segments: seq<string>)
    ensures forall b :: b in Blocks(segments) && b != [] ==> !IsSpace(b[0]) && !IsSpace(b[|b| - 1])
    decreases |segments|
  {
    if segments != [] {
      var x := |segments| - 1;
      BlocksTrimmed(segments[..x]);
    }
  }

  /**
   * Three newlines between two lines give two blocks: the third newline starts
   * the second segment and `strip` removes it.
   */
  lemma {:induction false} ExtraNewlineStripped(p: string, q: string)
    requires p != "" && '\n' !in p && '\n' !in q
    ensures Blocks(Split(p + "\n\n\n" + q, "\n\n")) == [Strip(p), Strip(q)]
  {
    var t := "\n" + q;
    ExtraNewlineSegments(p, q);
    var segments := [p, t];
    assert segments[..1] == [p];
    assert Blocks(segments) == [Strip(p), Strip(t)];
    assert t[1..] == q;
    assert StripLeft(t) == StripLeft(q);
  }

  lemma {:induction false} ExtraNewlineSegments(p: string, q: string)
    requires '\n' !in p && '\n' !in q
    ensures Split(p + "\n\n\n" + q, "\n\n") == [p, "\n" + q]
  {
    var t := "\n" + q;
    assert p + "\n\n\n" + q == p + "\n\n" + t;
    SplitAfterFreePrefix(p, "\n\n", t);
    forall i ensures !OccursAt(t, "\n\n", i) {
      if 0 <= i && i + 2 <= |t| {
        assert t[i..i + 2][1] == t[i + 1] == q[i];
      }
    }
    SplitNoOccurrence(t, "\n\n");
  }

  /** A segment of whitespace between two blank lines survives as an empty block. */
  lemma {:induction false} BlankSegmentKept(a: string, w: string, b: string)
    requires a != "" && '\n' !in a && b != "" && '\n' !in b && w != "" && '\n' !in w && AllSpace(w)
    ensures Blocks(Split(a + "\n\n" + w + "\n\n" + b, "\n\n")) == [Strip(a), "", Strip(b)]
  {
    BlankSegmentSegments(a, w, b);
    BlocksOfThree(a, w, b);
    StripEmpty(w);
  }

  /** Four newlines leave an exactly empty segment between two lines, and it is dropped. */
  lemma {:induction false} EmptySegmentDropped(a: string, b: string)
    requires a != "" && '\n' !in a && b != "" && '\n' !in b
    ensures Blocks(Split(a + "\n\n\n\n" + b, "\n\n")) == [Strip(a), Strip(b)]
  {
    BlankSegmentSegments(a, "", b);
    assert a + "\n\n" + "" + "\n\n" + b == a + "\n\n\n\n" + b;
    var segments := [a, "", b];
    assert segments[..2][..1] == [a];
    assert segments[..2][..1][..0] == [];
    assert Blocks([a]) == [Strip(a)];
    assert segments[..2] == [a, ""];
    assert Blocks([a, ""]) == [Strip(a)];
    assert segments[..3] == segments;
  }

  lemma {:induction false} BlocksOfThree(x: string, y: string, z: string)
    requires x != "" && y != "" && z != ""
    ensures Blocks([x, y, z]) == [Strip(x), Strip(y), Strip(z)]
  {
    var segments := [x, y, z];
    assert segments[..2][..1] == [x];
    assert segments[..2][..1][..0] == [];
    assert Blocks([x]) == [Strip(x)];
    assert segments[..2] == [x, y];
    assert Blocks([x, y]) == [Strip(x), Strip(y)];
    assert segments[..3] == segments;
  }

  lemma {:induction false} BlankSegmentSegments(a: string, w: string, b: string)
    requires '\n' !in a && '\n' !in b && '\n' !in w
    ensures Split(a + "\n\n" + w + "\n\n" + b, "\n\n") == [a, w, b]
  {
    SplitWithoutFirstChar(b, "\n\n");
    SplitAfterFreePrefix(w, "\n\n", b);
    SplitAfterFreePrefix(a, "\n\n", w + "\n\n" + b);
    assert a + "\n\n" + w + "\n\n" + b == a + "\n\n" + (w + "\n\n" + b);
  }

  // ---------------------------------------------------------------------------
  // is_heading, is_code, is_quote
  // ---------------------------------------------------------------------------

  /** `is_heading(block)`: one of six literal prefixes. */
  predicate IsHeading(block: string): (r: bool)
    ensures r ==> 2 <= |block| && block[0] == '#' && block[1] in "# "
  {
    || Prefix(block, 2) == "# "
    || Prefix(block, 3) == "## "
    || Prefix(block, 4) == "### "
    || Prefix(block, 5) == "#### "
    || Prefix(block, 6) == "##### "
    || Prefix(block, 7) == "###### "
  }

  /** The number of '#' characters a string starts with. */
  function LeadingHashes(s: string): (r: nat)
    ensures r <= |s|
    ensures forall i :: 0 <= i < r ==> s[i] == '#'
    ensures r < |s| ==> s[r] != '#'
  {
    if s != [] && s[0] == '#' then 1 + LeadingHashes(s[1..]) else 0
  }

  /** n '#' characters followed by a space. */
  function HeadingMarker(n: nat): (r: string)
    ensures |r| == n + 1 && r[n] == ' '
    ensures forall i :: 0 <= i < n ==> r[i] == '#'
  {
    if n == 0 then " " else "#" + HeadingMarker(n - 1)
  }

  /** A block starts with the marker of level n exactly when it has n leading hashes and a space. */
  lemma {:induction false} MarkerPrefix(block: string, n: nat)
    ensures Prefix(block, n + 1) == HeadingMarker(n)
        <==> n < |block| && LeadingHashes(block) == n && block[n] == ' '
  {
    var m := HeadingMarker(n);
    if Prefix(block, n + 1) == m {
      assert forall i :: 0 <= i <= n ==> block[i] == m[i];
    }
    if n < |block| && LeadingHashes(block) == n && block[n] == ' ' {
      assert forall i :: 0 <= i <= n ==> block[..n + 1][i] == m[i];
    }
  }

  /**
   * A block is a heading exactly when it starts with one to six '#' followed by
   * a space; seven or more hashes make a paragraph.
   */
  lemma {:induction false} HeadingLevels(block: string)
    ensures IsHeading(block) <==>
      var h := LeadingHashes(block); 1 <= h <= 6 && h < |block| && block[h] == ' '
  {
    assert HeadingMarker(1) == "# ";
    assert HeadingMarker(2) == "## ";
    assert HeadingMarker(3) == "### ";
    assert HeadingMarker(4) == "#### ";
    assert HeadingMarker(5) == "##### ";
    assert HeadingMarker(6) == "###### ";
    MarkerPrefix(block, 1);
    MarkerPrefix(block, 2);
    MarkerPrefix(block, 3);
    MarkerPrefix(block, 4);
    MarkerPrefix(block, 5);
    MarkerPrefix(block, 6);
  }

  /** `is_code(block)`: the first three and the last three characters are backticks. */
  predicate IsCode(block: string): (r: bool)
    ensures r ==> 3 <= |block| && block[0] == block[|block| - 1] == '`'
  {
    Prefix(block, 3) == "```" && Suffix(block, 3) == "```"
  }

  /** Fences may overlap: a block of three backticks is code, and nothing shorter is. */
  lemma {:induction false} CodeFences(block: string)
    ensures IsCode(block) <==> |block| >= 3 && block[..3] == "```" && block[|block| - 3..] == "```"
    ensures IsCode("```")
  {
  }

  /** The line test of `is_quote`: `line[0:1] == ">"`. */
  predicate QuotedLine(line: string)
  {
    Prefix(line, 1) == ">"
  }

  lemma {:induction false} QuotedLineFirst(line: string)
    ensures QuotedLine(line) <==> |line| > 0 && line[0] == '>'
  {
    if |line| > 0 {
      assert Prefix(line, 1) == [line[0]];
    }
  }

  predicate AllQuoted(lines: seq<string>)
  {
    forall k :: 0 <= k < |lines| ==> QuotedLine(lines[k])
  }

  /** `is_quote(block)` */
  method IsQuote(block: string) returns (r: bool)
    ensures r == AllQuoted(Split(block, "\n"))
  {
    var lines := Split(block, "\n");
    for i := 0 to |lines|
      invariant AllQuoted(lines[..i])
    {
      if Prefix(lines[i], 1) != ">" {
        return false;
      }
      assert lines[..i + 1] == lines[..i] + [lines[i]];
    }
    assert lines[..|lines|] == lines;
    return true;
  }

  /**
   * A block is a quote when it starts with '>' and every newline in it is
   * followed by '>'.
   */
  predicate QuoteShaped(block: string)
  {
    && |block| > 0 && block[0] == '>'
    && forall i :: 0 <= i < |block| && block[i] == '\n' ==> i + 1 < |block| && block[i + 1] == '>'
  }

  /** The position of the first occurrence of a character. */
  function FirstIndex(s: string, c: char): (r: nat)
    requires c in s
    ensures r < |s| && s[r] == c
    ensures forall j :: 0 <= j < r ==> s[j] != c
  {
    if s[0] == c then 0
    else
      assert c in s[1..] by { var k :| 0 <= k < |s| && s[k] == c; assert s[1..][k - 1] == c; }
      1 + FirstIndex(s[1..], c)
  }

  /** Cutting a block at its first newline: the first line is quoted and the rest is quote-shaped. */
  lemma {:induction false} QuoteShapedAt(block: string, i: nat)
    requires i < |block| && block[i] == '\n'
    requires forall j :: 0 <= j < i ==> block[j] != '\n'
    ensures QuoteShaped(block) <==> QuotedLine(block[..i]) && QuoteShaped(block[i + 1..])
  {
    var p, q := block[..i], block[i + 1..];
    if QuoteShaped(block) {
      assert i > 0;
      assert p[0] == block[0];
      forall j | 0 <= j < |q| && q[j] == '\n' ensures j + 1 < |q| && q[j + 1] == '>' {
        assert block[i + 1 + j] == '\n';
      }
    }
    if QuotedLine(p) && QuoteShaped(q) {
      assert p[0] == block[0];
      forall j | 0 <= j < |block| && block[j] == '\n' ensures j + 1 < |block| && block[j + 1] == '>' {
        if j > i {
          assert q[j - i - 1] == '\n';
        } else {
          assert j == i;
          assert q[0] == block[i + 1];
        }
      }
    }
  }

  lemma {:induction false} AllQuotedCons(p: string, rest: seq<string>)
    ensures AllQuoted([p] + rest) <==> QuotedLine(p) && AllQuoted(rest)
  {
    var lines := [p] + rest;
    if AllQuoted(lines) {
      assert QuotedLine(lines[0]);
      forall k | 0 <= k < |rest| ensures QuotedLine(rest[k]) {
        assert lines[k + 1] == rest[k];
      }
    }
  }

  /** The per-line test of `is_quote` and the newline characterisation agree. */
  lemma {:induction false} QuoteLines(block: string)
    ensures AllQuoted(Split(block, "\n")) <==> QuoteShaped(block)
    decreases |block|
  {
    if '\n' !in block {
      SplitWithoutFirstChar(block, "\n");
      assert [block][0] == block;
      QuotedLineFirst(block);
      assert forall j :: 0 <= j < |block| ==> block[j] != '\n';
    } else {
      var i := FirstIndex(block, '\n');
      var p, q := block[..i], block[i + 1..];
      assert block == p + "\n" + q;
      assert '\n' !in p;
      SplitAfterFreePrefix(p, "\n", q);
      QuoteLines(q);
      AllQuotedCons(p, Split(q, "\n"));
      QuoteShapedAt(block, i);
    }
  }

  // ---------------------------------------------------------------------------
  // block_to_block_type
  // ---------------------------------------------------------------------------

  /** The block type the tests of `block_to_block_type` give, in their order. */
  function Classify(block: string): BlockType
  {
    if IsHeading(block) then Heading
    else if IsCode(block) then Code
    else if QuoteShaped(block) then Quote
    else Paragraph
  }

  /** `block_to_block_type(block)` */
  method BlockToBlockType(block: string) returns (t: BlockType)
    ensures t == Classify(block)
  {
    if IsHeading(block) {
      return Heading;
    }
    if IsCode(block) {
      return Code;
    }
    var quote := IsQuote(block);
    QuoteLines(block);
    if quote {
      return Quote;
    }
    return Paragraph;
  }

  /**
   * The list types are never produced; an empty block is a paragraph; a block
   * that starts with none of '#', '`' and '>' is a paragraph, list-shaped or not.
   */
  lemma {:induction false} ClassifyRange(block: string)
    ensures Classify(block) != UnorderedList && Classify(block) != OrderedList
    ensures Classify("") == Paragraph
    ensures block != [] && block[0] != '#' && block[0] != '`' && block[0] != '>'
        ==> Classify(block) == Paragraph
  {
    if block != [] && block[0] != '#' && block[0] != '`' && block[0] != '>' {
      assert Prefix(block, 3)[0] == block[0];
      HeadingLevels(block);
    }
  }

  /**
   * No block passes two of the three tests: a heading starts with '#', a code
   * block with '`' and a quote with '>', so the order of the tests never
   * decides the type.
   */
  lemma {:induction false} TestsExclusive(block: string)
    ensures !(IsHeading(block) && IsCode(block))
    ensures !(IsHeading(block) && QuoteShaped(block))
    ensures !(IsCode(block) && QuoteShaped(block))
  {
    HeadingLevels(block);
    if IsHeading(block) {
      assert block[0] == '#';
    }
    if block != [] {
      assert Prefix(block, 3)[0] == block[0];
    }
  }
}
