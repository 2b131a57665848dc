/**
 * Image and link extraction (src/markdown_util.py): the two fixed regular
 * expressions `!\[(.*?)\]\((.*?)\)` and `(?<!!)\[(.*?)\]\((.*?)\)` as they
 * behave under `re.findall`, written as left-to-right scanners.
 */
module MarkdownUtil {
  import opened Wrappers
  import PyStr

  /** Which of the two expressions. */
  datatype Pattern = ImagePattern | LinkPattern

  /** The literal opener: `![` or `[`. */
  function Opener(pat: Pattern): (r: string)
    ensures |r| == OpenLen(pat)
  {
    if pat.ImagePattern? then "![" else "["
  }

  function OpenLen(pat: Pattern): nat
  {
    if pat.ImagePattern? then 2 else 1
  }

  /** The opener is at p; for a link, `(?<!!)` also asks that no `!` stands right before it. */
  predicate OpensAt(s: string, pat: Pattern, p: nat)
  {
    match pat
    case ImagePattern => p + 1 < |s| && s[p] == '!' && s[p + 1] == '['
    case LinkPattern => p < |s| && s[p] == '[' && (p == 0 || s[p - 1] != '!')
  }

  /**
   * After an opener ending at i: the first capture is s[i..j] (no newline,
   * as `.` does not match one), `](` stands at j, and the second capture is
   * s[j+2..k], ended by the first `)` with no newline before it.
   */
  predicate RestAt(s: string, i: nat, j: nat, k: nat)
  {
    && i <= j && j + 2 <= k < |s|
    && s[j] == ']' && s[j + 1] == '(' && s[k] == ')'
    && (forall t :: i <= t < j ==> s[t] != '\n')
    && (forall t :: j + 2 <= t < k ==> s[t] != '\n' && s[t] != ')')
  }

  /** The expression matches s[p..k+1] with the `](` at j. */
  predicate MatchShape(s: string, pat: Pattern, p: nat, j: nat, k: nat)
  {
    OpensAt(s, pat, p) && RestAt(s, p + OpenLen(pat), j, k)
  }

  /** One match: where it starts, where its `](` is and where its closing `)` is. */
  datatype Match = Match(start: nat, close: nat, end: nat)

  /** The match `re` reports at m.start: the lazy first capture is as short as it can be. */
  ghost predicate IsMatch(s: string, pat: Pattern, m: Match)
  {
    && MatchShape(s, pat, m.start, m.close, m.end)
    && forall j, k :: m.start + OpenLen(pat) <= j < m.close ==> !MatchShape(s, pat, m.start, j, k)
  }

  /** The lazy second capture: the first `)` at or after i, unless a newline comes first. */
  function UrlEnd(s: string, i: nat): (r: Option<nat>)
    ensures r.Some? ==> i <= r.value < |s|
    decreases |s| - i
  {
    if i >= |s| || s[i] == '\n' then None
    else if s[i] == ')' then Some(i)
    else UrlEnd(s, i + 1)
  }

  /** The second capture ends at the first `)`, and there is none when a newline comes first. */
  lemma {:induction false} UrlEndSpec(s: string, i: nat)
    ensures var r := UrlEnd(s, i);
      && (r.Some? ==> s[r.value] == ')' && forall t :: i <= t < r.value ==> s[t] != '\n' && s[t] != ')')
      && (r.None? ==> forall k :: i <= k < |s| && s[k] == ')' ==> exists t :: i <= t < k && s[t] == '\n')
    decreases |s| - i
  {
    if i < |s| && s[i] != '\n' && s[i] != ')' {
      UrlEndSpec(s, i + 1);
      var r := UrlEnd(s, i + 1);
      if r.None? {
        forall k | i <= k < |s| && s[k] == ')' ensures exists t :: i <= t < k && s[t] == '\n' {
          var t :| i + 1 <= t < k && s[t] == '\n';
        }
      }
    }
  }

  /**
   * The lazy first capture: the smallest j at or after i, reached without a
   * newline, at which `](`, a second capture and `)` follow.
   */
  function AltEnd(s: string, i: nat): (r: Option<(nat, nat)>)
    ensures r.Some? ==> i <= r.value.0 && r.value.0 + 2 <= r.value.1 < |s|
    decreases |s| - i
  {
    if i >= |s| || s[i] == '\n' then None
    else if s[i] == ']' && i + 1 < |s| && s[i + 1] == '(' && UrlEnd(s, i + 2).Some? then
      Some((i, UrlEnd(s, i + 2).value))
    else
      AltEnd(s, i + 1)
  }

  /** The first capture found is the shortest one after which the rest of the expression matches. */
  lemma {:induction false} AltEndSpec(s: string, i: nat)
    ensures var r := AltEnd(s, i);
      && (r.Some? ==> RestAt(s, i, r.value.0, r.value.1) && forall j, k :: i <= j < r.value.0 ==> !RestAt(s, i, j, k))
      && (r.None? ==> forall j, k :: !RestAt(s, i, j, k))
    decreases |s| - i
  {
    if i < |s| && s[i] != '\n' {
      UrlEndSpec(s, i + 2);
      if s[i] == ']' && i + 1 < |s| && s[i + 1] == '(' && UrlEnd(s, i + 2).Some? {
        var k := UrlEnd(s, i + 2).value;
        assert RestAt(s, i, i, k);
      } else {
        AltEndSpec(s, i + 1);
        RestHere(s, i);
        RestLater(s, i);
      }
    }
  }

  /** Without `](` and a second capture at i, no first capture ends at i. */
  lemma {:induction false} RestHere(s: string, i: nat)
    requires i < |s|
    requires !(s[i] == ']' && i + 1 < |s| && s[i + 1] == '(' && UrlEnd(s, i + 2).Some?)
    ensures forall k :: !RestAt(s, i, i, k)
  {
    if s[i] == ']' && i + 1 < |s| && s[i + 1] == '(' {
      UrlEndSpec(s, i + 2);
    }
  }

  /** Past a character that is not a newline, a first capture that ends later starts one position later. */
  lemma {:induction false} RestLater(s: string, i: nat)
    requires i < |s| && s[i] != '\n'
    ensures forall j, k :: i < j ==> (RestAt(s, i, j, k) <==> RestAt(s, i + 1, j, k))
  {
  }

  /** The positions of a match lie in the text, in order. */
  predicate Bounded(s: string, pat: Pattern, m: Match)
  {
    m.start + OpenLen(pat) <= m.close && m.close + 2 <= m.end < |s|
  }

  /** The match starting exactly at p, if any. */
  function MatchAt(s: string, pat: Pattern, p: nat): (r: Option<Match>)
    ensures r.Some? ==> r.value.start == p && Bounded(s, pat, r.value)
  {
    if !OpensAt(s, pat, p) then None
    else
      match AltEnd(s, p + OpenLen(pat))
      case None => None
      case Some((j, k)) => Some(Match(p, j, k))
  }

  /** What is found at p is the match `re` reports there, and nothing is found exactly when nothing matches there. */
  lemma {:induction false} MatchAtSpec(s: string, pat: Pattern, p: nat)
    ensures var r := MatchAt(s, pat, p);
      && (r.Some? ==> IsMatch(s, pat, r.value))
      && (r.None? ==> forall j, k :: !MatchShape(s, pat, p, j, k))
  {
    AltEndSpec(s, p + OpenLen(pat));
  }

  /** `re.findall` from position `from`: try each start in turn and resume after each match. */
  function Scan(s: string, pat: Pattern, from: nat): (ms: seq<Match>)
    ensures forall i :: 0 <= i < |ms| ==> Bounded(s, pat, ms[i]) && from <= ms[i].start
    decreases |s| - from
  {
    if from >= |s| then []
    else
      match MatchAt(s, pat, from)
      case Some(m) => [m] + Scan(s, pat, m.end + 1)
      case None => Scan(s, pat, from + 1)
  }

  /** No match of the expression starts anywhere in [lo, hi). */
  ghost predicate NoMatchBetween(s: string, pat: Pattern, lo: nat, hi: nat)
  {
    forall p, j, k :: lo <= p < hi ==> !MatchShape(s, pat, p, j, k)
  }

  /** Where the search finds the first match of the list, or the end of the text when there is none. */
  function FirstStart(s: string, ms: seq<Match>): nat
  {
    if ms == [] then |s| else ms[0].start
  }

  /**
   * What `findall` returns from `from`, stated without the scanner: nothing
   * matches between `from` and the first match (or the end of the text); the
   * first match is the match `re` reports there, with the shortest first
   * capture; and the rest meets the specification from just after its end.
   */
  ghost predicate FindAllSpec(s: string, pat: Pattern, from: nat, ms: seq<Match>)
    decreases |ms|
  {
    && NoMatchBetween(s, pat, from, FirstStart(s, ms))
    && (ms != [] ==>
         && IsMatch(s, pat, ms[0]) && from <= ms[0].start
         && FindAllSpec(s, pat, ms[0].end + 1, ms[1..]))
  }

  /** The list the specification describes holds matches at or after `from`, each ending before any later one starts. */
  lemma {:induction false} SpecMatchesInOrder(s: string, pat: Pattern, from: nat, ms: seq<Match>)
    requires FindAllSpec(s, pat, from, ms)
    ensures forall i :: 0 <= i < |ms| ==> IsMatch(s, pat, ms[i]) && from <= ms[i].start
    ensures forall i, j :: 0 <= i < j < |ms| ==> ms[i].end < ms[j].start
    decreases |ms|
  {
    if ms != [] {
      var rest := ms[1..];
      SpecMatchesInOrder(s, pat, ms[0].end + 1, rest);
      assert ms[0].start <= ms[0].end by {
        assert MatchShape(s, pat, ms[0].start, ms[0].close, ms[0].end);
      }
      forall i | 0 < i < |ms| ensures ms[i] == rest[i - 1] {
      }
    }
  }

  /** A start without a match extends a stretch without matches by one position to the left. */
  lemma {:induction false} NoMatchExtend(s: string, pat: Pattern, lo: nat, hi: nat)
    requires forall j, k :: !MatchShape(s, pat, lo, j, k)
    requires NoMatchBetween(s, pat, lo + 1, hi)
    ensures NoMatchBetween(s, pat, lo, hi)
  {
  }

  /** The scanner meets the specification. */
  lemma {:induction false} ScanMeetsSpec(s: string, pat: Pattern, from: nat)
    ensures FindAllSpec(s, pat, from, Scan(s, pat, from))
    decreases |s| - from, 1
  {
    if from < |s| {
      if MatchAt(s, pat, from).Some? {
        ScanFoundMeetsSpec(s, pat, from);
      } else {
        ScanSkipMeetsSpec(s, pat, from);
      }
    }
  }

  /** Where a match is found, the scanner reports it and resumes after its end. */
  lemma {:induction false} ScanFoundMeetsSpec(s: string, pat: Pattern, from: nat)
    requires from < |s| && MatchAt(s, pat, from).Some?
    ensures FindAllSpec(s, pat, from, Scan(s, pat, from))
    decreases |s| - from, 0
  {
    var m := MatchAt(s, pat, from).value;
    var rest := Scan(s, pat, m.end + 1);
    assert Scan(s, pat, from) == [m] + rest;
    ScanMeetsSpec(s, pat, m.end + 1);
    MatchAtSpec(s, pat, from);
    SpecCons(s, pat, m, rest);
  }

  /** Where nothing is found, the scanner moves on by one position. */
  lemma {:induction false} ScanSkipMeetsSpec(s: string, pat: Pattern, from: nat)
    requires from < |s| && MatchAt(s, pat, from).None?
    ensures FindAllSpec(s, pat, from, Scan(s, pat, from))
    decreases |s| - from, 0
  {
    var ms := Scan(s, pat, from + 1);
    assert Scan(s, pat, from) == ms;
    ScanMeetsSpec(s, pat, from + 1);
    SpecSkip(s, pat, from, ms);
  }

  /** A match in front of a list that meets the specification after its end meets it from the match's start. */
  lemma {:induction false} SpecCons(s: string, pat: Pattern, m: Match, rest: seq<Match>)
    requires IsMatch(s, pat, m)
    requires FindAllSpec(s, pat, m.end + 1, rest)
    ensures FindAllSpec(s, pat, m.start, [m] + rest)
  {
    assert ([m] + rest)[1..] == rest;
  }

  /** A start where nothing is found, in front of a list that meets the specification, keeps it met. */
  lemma {:induction false} SpecSkip(s: string, pat: Pattern, from: nat, ms: seq<Match>)
    requires MatchAt(s, pat, from).None?
    requires FindAllSpec(s, pat, from + 1, ms)
    ensures FindAllSpec(s, pat, from, ms)
  {
    MatchAtSpec(s, pat, from);
    NoMatchExtend(s, pat, from, FirstStart(s, ms));
  }

  /** The closing `)` of a match is fixed by where its `](` is. */
  lemma {:induction false} ShapeEndUnique(s: string, pat: Pattern, p: nat, j: nat, k1: nat, k2: nat)
    requires MatchShape(s, pat, p, j, k1) && MatchShape(s, pat, p, j, k2)
    ensures k1 == k2
  {
  }

  /** Two lists that meet the specification start with the same match. */
  lemma {:induction false} SameFirstMatch(s: string, pat: Pattern, from: nat, ms1: seq<Match>, ms2: seq<Match>)
    requires FindAllSpec(s, pat, from, ms1) && FindAllSpec(s, pat, from, ms2)
    ensures ms1 == [] <==> ms2 == []
    ensures ms1 != [] ==> ms1[0] == ms2[0]
  {
    if ms1 != [] && ms2 != [] {
      var m1, m2 := ms1[0], ms2[0];
      assert IsMatch(s, pat, m1) && IsMatch(s, pat, m2);
      assert MatchShape(s, pat, m1.start, m1.close, m1.end);
      assert MatchShape(s, pat, m2.start, m2.close, m2.end);
      assert m1.start == m2.start;
      assert m1.close == m2.close;
      ShapeEndUnique(s, pat, m1.start, m1.close, m1.end, m2.end);
    }
  }

  /** The specification leaves no choice: two lists of matches that meet it are the same. */
  lemma {:induction false} FindAllUnique(s: string, pat: Pattern, from: nat, ms1: seq<Match>, ms2: seq<Match>)
    requires FindAllSpec(s, pat, from, ms1) && FindAllSpec(s, pat, from, ms2)
    ensures ms1 == ms2
    decreases |ms1|
  {
    SameFirstMatch(s, pat, from, ms1, ms2);
    if ms1 != [] {
      var m := ms1[0];
      FindAllUnique(s, pat, m.end + 1, ms1[1..], ms2[1..]);
      assert ms1 == [m] + ms1[1..];
      assert ms2 == [m] + ms2[1..];
    }
  }

  /** The two captures of a match: the alt or link text, and the URL. */
  function Capture(s: string, pat: Pattern, m: Match): (string, string)
    requires Bounded(s, pat, m)
  {
    (s[m.start + OpenLen(pat)..m.close], s[m.close + 2..m.end])
  }

  function Captures(s: string, pat: Pattern, ms: seq<Match>): (r: seq<(string, string)>)
    requires forall i :: 0 <= i < |ms| ==> Bounded(s, pat, ms[i])
    ensures |r| == |ms| && forall i :: 0 <= i < |ms| ==> r[i] == Capture(s, pat, ms[i])
  {
    if ms == [] then [] else [Capture(s, pat, ms[0])] + Captures(s, pat, ms[1..])
  }

  /** `re.findall` of the pattern over the whole text: the capture pairs in order. */
  function FindAll(text: string, pat: Pattern): seq<(string, string)>
  {
    Captures(text, pat, Scan(text, pat, 0))
  }

  /** `extract_markdown_images(text)` */
  function ExtractMarkdownImages(text: string): (r: seq<(string, string)>)
    ensures r == [] <==> NoMatchBetween(text, ImagePattern, 0, |text|)
  {
    FindAllEmpty(text, ImagePattern);
    FindAll(text, ImagePattern)
  }

  /** `extract_markdown_links(text)` */
  function ExtractMarkdownLinks(text: string): (r: seq<(string, string)>)
    ensures r == [] <==> NoMatchBetween(text, LinkPattern, 0, |text|)
  {
    FindAllEmpty(text, LinkPattern);
    FindAll(text, LinkPattern)
  }

  /**
   * `findall` returns the captures of the one list of matches that meets the
   * specification: the scanner is the only possible result.
   */
  lemma {:induction false} FindAllIsSpecified(text: string, pat: Pattern, ms: seq<Match>)
    requires FindAllSpec(text, pat, 0, ms)
    ensures forall i :: 0 <= i < |ms| ==> Bounded(text, pat, ms[i])
    ensures FindAll(text, pat) == Captures(text, pat, ms)
  {
    ScanMeetsSpec(text, pat, 0);
    FindAllUnique(text, pat, 0, ms, Scan(text, pat, 0));
  }

  /** The text a match covers is the opener, the first capture, `](`, the second capture and `)`. */
  lemma {:induction false} MatchText(s: string, pat: Pattern, m: Match)
    requires Bounded(s, pat, m) && OpensAt(s, pat, m.start)
    requires s[m.close] == ']' && s[m.close + 1] == '(' && s[m.end] == ')'
    ensures s[m.start..m.end + 1] == Opener(pat) + Capture(s, pat, m).0 + "](" + Capture(s, pat, m).1 + ")"
  {
    OpenerText(s, pat, m.start);
    BracketText(s, m.close, m.end);
    SliceJoin5(s, m.start, m.start + OpenLen(pat), m.close, m.close + 2, m.end, m.end + 1);
  }

  /** The characters the opener test reads spell the opener. */
  lemma {:induction false} OpenerText(s: string, pat: Pattern, p: nat)
    requires OpensAt(s, pat, p)
    ensures p + OpenLen(pat) <= |s| && s[p..p + OpenLen(pat)] == Opener(pat)
  {
    if pat.ImagePattern? {
      assert s[p..p + 2] == [s[p], s[p + 1]];
    } else {
      assert s[p..p + 1] == [s[p]];
    }
  }

  /** The `](` at c and the `)` at e, as strings. */
  lemma {:induction false} BracketText(s: string, c: nat, e: nat)
    requires c + 2 <= e < |s| && s[c] == ']' && s[c + 1] == '(' && s[e] == ')'
    ensures s[c..c + 2] == "](" && s[e..e + 1] == ")"
  {
    assert s[c..c + 2] == [s[c], s[c + 1]];
  }

  /** Adjacent slices of one string join into the slice that covers them all. */
  lemma {:induction false} SliceJoin5(s: string, i0: nat, i1: nat, i2: nat, i3: nat, i4: nat, i5: nat)
    requires i0 <= i1 <= i2 <= i3 <= i4 <= i5 <= |s|
    ensures s[i0..i5] == s[i0..i1] + s[i1..i2] + s[i2..i3] + s[i3..i4] + s[i4..i5]
  {
    assert s[i0..i2] == s[i0..i1] + s[i1..i2];
    assert s[i0..i3] == s[i0..i2] + s[i2..i3];
    assert s[i0..i4] == s[i0..i3] + s[i3..i4];
    assert s[i0..i5] == s[i0..i4] + s[i4..i5];
  }

  /**
   * Every pair (a, u) returned occurs in the text as `![a](u)` (images) or
   * `[a](u)` not preceded by `!` (links); neither capture holds a newline and
   * the URL holds no `)`.
   */
  lemma {:induction false} FoundPairsOccur(text: string, pat: Pattern, n: nat)
    requires n < |FindAll(text, pat)|
    ensures var a, u := FindAll(text, pat)[n].0, FindAll(text, pat)[n].1;
      && (exists p :: PyStr.OccursAt(text, Opener(pat) + a + "](" + u + ")", p)
            && (pat.LinkPattern? && p > 0 ==> text[p - 1] != '!'))
      && '\n' !in a && '\n' !in u && ')' !in u
  {
    var ms := Scan(text, pat, 0);
    ScanMeetsSpec(text, pat, 0);
    SpecMatchesInOrder(text, pat, 0, ms);
    var m := ms[n];
    assert FindAll(text, pat) == Captures(text, pat, ms);
    assert FindAll(text, pat)[n] == Capture(text, pat, m);
    CaptureOccurs(text, pat, m);
  }

  /** The captures of one match occur in the text where the match starts, in the shape the expression gives them. */
  lemma {:induction false} CaptureOccurs(s: string, pat: Pattern, m: Match)
    requires IsMatch(s, pat, m) && Bounded(s, pat, m)
    ensures var a, u := Capture(s, pat, m).0, Capture(s, pat, m).1;
      && PyStr.OccursAt(s, Opener(pat) + a + "](" + u + ")", m.start)
      && (pat.LinkPattern? && m.start > 0 ==> s[m.start - 1] != '!')
      && '\n' !in a && '\n' !in u && ')' !in u
  {
    var a, u := Capture(s, pat, m).0, Capture(s, pat, m).1;
    assert MatchShape(s, pat, m.start, m.close, m.end);
    MatchText(s, pat, m);
    assert '\n' !in a by {
      forall t | 0 <= t < |a| ensures a[t] != '\n' {
        assert a[t] == s[m.start + OpenLen(pat) + t];
      }
    }
    assert '\n' !in u && ')' !in u by {
      forall t | 0 <= t < |u| ensures u[t] != '\n' && u[t] != ')' {
        assert u[t] == s[m.close + 2 + t];
      }
    }
  }

  /** Nothing is returned exactly when the expression matches nowhere in the text. */
  lemma {:induction false} FindAllEmpty(text: string, pat: Pattern)
    ensures FindAll(text, pat) == [] <==> NoMatchBetween(text, pat, 0, |text|)
  {
    ScanMeetsSpec(text, pat, 0);
    var ms := Scan(text, pat, 0);
    if ms != [] {
      assert MatchShape(text, pat, ms[0].start, ms[0].close, ms[0].end);
    }
  }

  /** A link is never reported where an image starts: the `[` of every link has no `!` before it. */
  lemma {:induction false} LinksSkipImages(text: string, ms: seq<Match>)
    requires FindAllSpec(text, LinkPattern, 0, ms)
    ensures forall i :: 0 <= i < |ms| ==> ms[i].start < |text| && (ms[i].start > 0 ==> text[ms[i].start - 1] != '!')
  {
    SpecMatchesInOrder(text, LinkPattern, 0, ms);
    forall i | 0 <= i < |ms| ensures ms[i].start < |text| && (ms[i].start > 0 ==> text[ms[i].start - 1] != '!') {
      var m := ms[i];
      assert IsMatch(text, LinkPattern, m);
      assert OpensAt(text, LinkPattern, m.start);
    }
  }

  /** Text without a `!` holds no image, whatever links it has. */
  lemma {:induction false} NoBangNoImages(text: string)
    requires '!' !in text
    ensures ExtractMarkdownImages(text) == []
  {
    forall p, j, k | 0 <= p < |text| ensures !MatchShape(text, ImagePattern, p, j, k) {
      assert text[p] != '!';
    }
    FindAllEmpty(text, ImagePattern);
  }

  /**
   * In mixed text the two expressions keep to their own kind: no link match
   * starts at the `!` or at the `[` of an image match.
   */
  lemma {:induction false} ImagesAndLinksApart(text: string, image: Match, link: Match)
    requires IsMatch(text, ImagePattern, image) && IsMatch(text, LinkPattern, link)
    ensures link.start != image.start && link.start != image.start + 1
  {
  }

  /** The lazy first capture can hold a `]` that no `(` follows: `[a]b](c)` gives the link text "a]b". */
  lemma {:induction false} AltMayHoldBracket()
    ensures ExtractMarkdownLinks("[a]b](c)") == [("a]b", "c")]
  {
    var s := "[a]b](c)";
    assert AltEnd(s, 1) == Some((4, 7));
    assert MatchAt(s, LinkPattern, 0) == Some(Match(0, 4, 7));
    assert Scan(s, LinkPattern, 8) == [];
    assert Scan(s, LinkPattern, 0) == [Match(0, 4, 7)];
    assert s[1..4] == "a]b" && s[6..7] == "c";
  }
}
