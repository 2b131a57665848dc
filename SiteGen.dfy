/** Title extraction for page generation (src/site_gen.py). */
module SiteGen {
  import opened Wrappers
  import opened PyStr

  /** `extract_title` raises ValueError("Error: No title header found.") */
  datatype TitleError = MissingTitle

  /** A line announces the title when, stripped, it starts with "# ". */
  predicate IsTitleLine(line: string)
  {
    StartsWith(Strip(line), "# ")
  }

  /** The title the first title line gives, or the error when no line is one. */
  function TitleOf(lines: seq<string>): Result<string, TitleError>
  {
    if lines == [] then Err(MissingTitle)
    else if IsTitleLine(lines[0]) then Ok(Strip(lines[0])[2..])
    else TitleOf(lines[1..])
  }

  /** `extract_title(markdown)` */
  method ExtractTitle(markdown: string) returns (r: Result<string, TitleError>)
    ensures r == TitleOf(Split(markdown, "\n"))
  {
    var lines := Split(markdown, "\n");
    for i := 0 to |lines|
      invariant TitleOf(lines[i..]) == TitleOf(lines)
    {
      assert lines[i..][1..] == lines[i + 1..];
      var line := Strip(lines[i]);
      if StartsWith(line, "# ") {
        return Ok(line[2..]);
      }
    }
    return Err(MissingTitle);
  }

  /** The error comes exactly when no line is a title line. */
  lemma {:induction false} TitleMissing(lines: seq<string>)
    ensures TitleOf(lines).Err? <==> forall k :: 0 <= k < |lines| ==> !IsTitleLine(lines[k])
    decreases |lines|
  {
    if lines != [] && !IsTitleLine(lines[0]) {
      var rest := lines[1..];
      TitleMissing(rest);
      assert forall k :: 1 <= k < |lines| ==> lines[k] == rest[k - 1];
    }
  }

  /** The title is the text after "# " on the first title line. */
  lemma {:induction false} TitleFirstLine(lines: seq<string>, k: nat)
    requires k < |lines| && IsTitleLine(lines[k])
    requires forall j :: 0 <= j < k ==> !IsTitleLine(lines[j])
    ensures TitleOf(lines) == Ok(Strip(lines[k])[2..])
    decreases k
  {
    if k > 0 {
      var rest := lines[1..];
      assert rest[k - 1] == lines[k];
      assert forall j :: 0 <= j < k - 1 ==> rest[j] == lines[j + 1];
      TitleFirstLine(rest, k - 1);
    }
  }

  /** The title never ends in whitespace. */
  lemma {:induction false} TitleTrimmed(lines: seq<string>)
    ensures TitleOf(lines).Ok? ==>
      var t := TitleOf(lines).value; t == [] || !IsSpace(t[|t| - 1])
    decreases |lines|
  {
    if lines != [] {
      if IsTitleLine(lines[0]) {
        var s := Strip(lines[0]);
        assert s[2..] == [] || s[2..][|s[2..]| - 1] == s[|s| - 1];
      } else {
        TitleTrimmed(lines[1..]);
      }
    }
  }

  /** Indentation before the title marker does not matter. */
  lemma {:induction false} LeadingSpaceIgnored(w: string, line: string)
    requires AllSpace(w)
    ensures IsTitleLine(w + line) <==> IsTitleLine(line)
    ensures Strip(w + line) == Strip(line)
  {
    StripLeftSpaces(w, line);
  }

  lemma {:induction false} StripLeftSpaces(w: string, line: string)
    requires AllSpace(w)
    ensures StripLeft(w + line) == StripLeft(line)
    decreases |w|
  {
    if w != [] {
      assert (w + line)[1..] == w[1..] + line;
      assert (w + line)[0] == w[0];
      StripLeftSpaces(w[1..], line);
    } else {
      assert w + line == line;
    }
  }

  /** A level-two heading, or "#" without a space, is never the title line. */
  lemma {:induction false} OnlyLevelOne(line: string)
    requires StartsWith(Strip(line), "##") || Strip(line) == "#"
    ensures !IsTitleLine(line)
  {
    var s := Strip(line);
    if StartsWith(s, "##") {
      assert s[..2][1] == s[1] == '#';
    }
  }

  /** A document whose first line is a title line, after any indentation, takes its title from it. */
  lemma {:induction false} FirstLineTitle(w: string, title: string, body: string)
    requires AllSpace(w) && '\n' !in w && '\n' !in title
    requires title != [] && !IsSpace(title[|title| - 1])
    ensures TitleOf(Split(w + "# " + title + "\n" + body, "\n")) == Ok(title)
  {
    var line := w + "# " + title;
    assert w + "# " + title + "\n" + body == line + "\n" + body;
    assert '\n' !in line by {
      forall k | 0 <= k < |line| ensures line[k] != '\n' {
        if k < |w| { assert line[k] == w[k]; }
        else if k < |w| + 2 { assert line[k] == "# "[k - |w|]; }
        else { assert line[k] == title[k - |w| - 2]; }
      }
    }
    SplitAfterFreePrefix(line, "\n", body);
    TitleLine(w, title);
    var lines := [line] + Split(body, "\n");
    assert lines[0] == line;
  }

  /** An indented "# " followed by a title that does not end in whitespace is a title line giving that title. */
  lemma {:induction false} TitleLine(w: string, title: string)
    requires AllSpace(w)
    requires title != [] && !IsSpace(title[|title| - 1])
    ensures IsTitleLine(w + "# " + title) && Strip(w + "# " + title)[2..] == title
  {
    var marked := "# " + title;
    assert w + "# " + title == w + marked;
    LeadingSpaceIgnored(w, marked);
    StripOfMarker(title);
    MarkerText(title);
  }

  /** "# " followed by a title that does not end in whitespace is left as it is by `strip`. */
  lemma {:induction false} StripOfMarker(title: string)
    requires title != [] && !IsSpace(title[|title| - 1])
    ensures Strip("# " + title) == "# " + title
  {
    var s := "# " + title;
    assert s[|s| - 1] == title[|title| - 1];
    assert s[|s|..] == [];
    assert s[..0] == [];
    StripUnique(s, 0, |s|);
    assert s[0..|s|] == s;
  }

  lemma {:induction false} MarkerText(title: string)
    ensures StartsWith("# " + title, "# ") && ("# " + title)[2..] == title
  {
    assert ("# " + title)[..2] == "# ";
  }
}
