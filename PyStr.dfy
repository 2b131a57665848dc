/**
 * The few Python string operations the site generator calls: `str.split(sep)`,
 * `str.strip()`, `str.startswith(p)` and clamped slicing (`s[0:n]`, `s[-n:]`).
 *
 * `Join`, `Count` and `RemoveAll` (the meanings of `sep.join`, `str.count` and
 * `str.replace(sub, "")`) are not called by the site generator; they are
 * specification functions, used to state what `Split` computes
 * (`JoinSplit`, `SplitLength`, `ConcatSplit`).
 */
module PyStr {

  /** The occurrence of `sub` at index `i` of `s`. */
  predicate OccursAt(s: string, sub: string, i: int)
  {
    0 <= i && i + |sub| <= |s| && s[i..i + |sub|] == sub
  }

  /** `s.startswith(p)` */
  predicate StartsWith(s: string, p: string): (r: bool)
    ensures r <==> Prefix(s, |p|) == p
  {
    |p| <= |s| && s[..|p|] == p
  }

  /** `s[0:n]` for n >= 0: Python clamps the bound instead of failing. */
  function Prefix(s: string, n: nat): (r: string)
    ensures |r| == if n <= |s| then n else |s|
    ensures r == s[..|r|]
  {
    if n <= |s| then s[..n] else s
  }

  /** `s[-n:]` for n > 0: the last n characters, or all of `s` when it is shorter. */
  function Suffix(s: string, n: nat): (r: string)
    requires n > 0
    ensures |r| == if n <= |s| then n else |s|
    ensures r == s[|s| - |r|..]
  {
    if n <= |s| then s[|s| - n..] else s
  }

  /**
   * `s.split(sep)` for a non-empty separator: the text between the
   * non-overlapping occurrences of `sep`, found left to right.
   */
  function Split(s: string, sep: string): (r: seq<string>)
    requires sep != []
    ensures |r| >= 1
    decreases |s|
  {
    if |s| < |sep| then [s]
    else if s[..|sep|] == sep then [""] + Split(s[|sep|..], sep)
    else
      var rest := Split(s[1..], sep);
      [[s[0]] + rest[0]] + rest[1..]
  }

  /** `sep.join(pieces)` */
  function Join(pieces: seq<string>, sep: string): string
  {
    if |pieces| == 0 then ""
    else if |pieces| == 1 then pieces[0]
    else pieces[0] + sep + Join(pieces[1..], sep)
  }

  /** `s.count(sub)` for a non-empty `sub`: non-overlapping occurrences, left to right. */
  function Count(s: string, sub: string): nat
    requires sub != []
    decreases |s|
  {
    if |s| < |sub| then 0
    else if s[..|sub|] == sub then 1 + Count(s[|sub|..], sub)
    else Count(s[1..], sub)
  }

  /** `s.replace(sub, "")` for a non-empty `sub`. */
  function RemoveAll(s: string, sub: string): string
    requires sub != []
    decreases |s|
  {
    if |s| < |sub| then s
    else if s[..|sub|] == sub then RemoveAll(s[|sub|..], sub)
    else [s[0]] + RemoveAll(s[1..], sub)
  }

  /** Adding a last piece adds the separator and that piece to the joined text. */
  lemma {:induction false} JoinSnoc(ps: seq<string>, p: string, sep: string)
    requires ps != []
    ensures Join(ps + [p], sep) == Join(ps, sep) + sep + p
    decreases |ps|
  {
    if |ps| > 1 {
      JoinSnoc(ps[1..], p, sep);
      assert (ps + [p])[1..] == ps[1..] + [p];
    }
  }

  /** Prepending to the first piece prepends to the joined text. */
  lemma {:induction false} JoinExtendFirst(a: string, p: string, ps: seq<string>, sep: string)
    ensures Join([a + p] + ps, sep) == a + Join([p] + ps, sep)
  {
    if |ps| > 0 {
      assert ([a + p] + ps)[1..] == ps;
      assert ([p] + ps)[1..] == ps;
    }
  }

  /** Joining the pieces of a split with the separator gives back the input. */
  lemma {:induction false} JoinSplit(s: string, sep: string)
    requires sep != []
    ensures Join(Split(s, sep), sep) == s
    decreases |s|
  {
    if |s| < |sep| {
    } else if s[..|sep|] == sep {
      JoinSplit(s[|sep|..], sep);
      JoinSplitAtSep(s, sep);
    } else {
      JoinSplit(s[1..], sep);
      JoinSplitPastChar(s, sep);
    }
  }

  /** The step of JoinSplit where the separator starts the string. */
  lemma {:induction false} JoinSplitAtSep(s: string, sep: string)
    requires sep != [] && |s| >= |sep| && s[..|sep|] == sep
    requires Join(Split(s[|sep|..], sep), sep) == s[|sep|..]
    ensures Join(Split(s, sep), sep) == s
  {
    var rest := Split(s[|sep|..], sep);
    assert Split(s, sep) == [""] + rest;
    assert ([""] + rest)[1..] == rest;
    assert s == sep + s[|sep|..];
  }

  /** The step of JoinSplit where the first character joins the first piece. */
  lemma {:induction false} JoinSplitPastChar(s: string, sep: string)
    requires sep != [] && |s| >= |sep| && s[..|sep|] != sep
    requires Join(Split(s[1..], sep), sep) == s[1..]
    ensures Join(Split(s, sep), sep) == s
  {
    var rest := Split(s[1..], sep);
    assert Split(s, sep) == [[s[0]] + rest[0]] + rest[1..];
    JoinExtendFirst([s[0]], rest[0], rest[1..], sep);
    assert [rest[0]] + rest[1..] == rest;
    assert s == [s[0]] + s[1..];
  }

  /** Without an occurrence of the separator, `split` gives the whole string back as the only piece. */
  lemma {:induction false} SplitNoOccurrence(s: string, sep: string)
    requires sep != []
    requires forall i :: !OccursAt(s, sep, i)
    ensures Split(s, sep) == [s]
    decreases |s|
  {
    if |s| >= |sep| {
      assert !OccursAt(s, sep, 0);
      forall i ensures !OccursAt(s[1..], sep, i) {
        assert !OccursAt(s, sep, i + 1);
      }
      SplitNoOccurrence(s[1..], sep);
      assert [s[0]] + s[1..] == s;
    }
  }

  /** `split` cuts at the leftmost occurrence of the separator and goes on after it. */
  lemma {:induction false} SplitAtFirst(s: string, sep: string, i: nat)
    requires sep != []
    requires OccursAt(s, sep, i)
    requires forall j :: 0 <= j < i ==> !OccursAt(s, sep, j)
    ensures Split(s, sep) == [s[..i]] + Split(s[i + |sep|..], sep)
    decreases i
  {
    if i == 0 {
      assert s[..|sep|] == sep;
    } else {
      FirstOccurrenceShift(s, sep, i);
      SplitAtFirst(s[1..], sep, i - 1);
      SplitPastPiece(s, sep, i);
    }
  }

  /** A first character that starts no occurrence joins the first piece of the rest. */
  lemma {:induction false} SplitPastPiece(s: string, sep: string, i: nat)
    requires sep != [] && 0 < i && i + |sep| <= |s| && s[..|sep|] != sep
    requires Split(s[1..], sep) == [s[1..][..i - 1]] + Split(s[1..][i - 1 + |sep|..], sep)
    ensures Split(s, sep) == [s[..i]] + Split(s[i + |sep|..], sep)
  {
    var t := s[1..];
    var rest, after := Split(t, sep), Split(s[i + |sep|..], sep);
    assert t[i - 1 + |sep|..] == s[i + |sep|..];
    assert rest[0] == t[..i - 1] && rest[1..] == after;
    assert [s[0]] + t[..i - 1] == s[..i];
  }

  /** Past a first character that starts no occurrence, the first occurrence is one position earlier. */
  lemma {:induction false} FirstOccurrenceShift(s: string, sep: string, i: nat)
    requires sep != [] && 0 < i
    requires OccursAt(s, sep, i)
    requires forall j :: 0 <= j < i ==> !OccursAt(s, sep, j)
    ensures |s| >= |sep| && s[..|sep|] != sep
    ensures OccursAt(s[1..], sep, i - 1)
    ensures forall j :: 0 <= j < i - 1 ==> !OccursAt(s[1..], sep, j)
  {
    var t := s[1..];
    assert !OccursAt(s, sep, 0);
    assert t[i - 1..i - 1 + |sep|] == s[i..i + |sep|];
    forall j | 0 <= j < i - 1 ensures !OccursAt(t, sep, j) {
      assert !OccursAt(s, sep, j + 1);
      assert t[j..j + |sep|] == s[j + 1..j + 1 + |sep|];
    }
  }

  /** A piece that cannot hold the separator's first character ends at the first occurrence. */
  lemma {:induction false} SplitAfterFreePrefix(p: string, sep: string, q: string)
    requires sep != [] && sep[0] !in p
    ensures Split(p + sep + q, sep) == [p] + Split(q, sep)
  {
    var s := p + sep + q;
    assert s[|p|..|p| + |sep|] == sep;
    forall j | 0 <= j < |p| ensures !OccursAt(s, sep, j) {
      assert s[j] == p[j];
    }
    SplitAtFirst(s, sep, |p|);
    assert s[..|p|] == p;
    assert s[|p| + |sep|..] == q;
  }

  /** A split has one piece more than there are occurrences of the separator. */
  lemma {:induction false} SplitLength(s: string, sep: string)
    requires sep != []
    ensures |Split(s, sep)| == Count(s, sep) + 1
    decreases |s|
  {
    if |s| < |sep| {
    } else if s[..|sep|] == sep {
      SplitLength(s[|sep|..], sep);
    } else {
      SplitLength(s[1..], sep);
    }
  }

  /** Joining the pieces of a split with nothing removes every occurrence of the separator. */
  lemma {:induction false} ConcatSplit(s: string, sep: string)
    requires sep != []
    ensures Join(Split(s, sep), "") == RemoveAll(s, sep)
    decreases |s|
  {
    if |s| < |sep| {
    } else if s[..|sep|] == sep {
      var rest := Split(s[|sep|..], sep);
      ConcatSplit(s[|sep|..], sep);
      assert ([""] + rest)[1..] == rest;
    } else {
      var rest := Split(s[1..], sep);
      ConcatSplit(s[1..], sep);
      JoinExtendFirst([s[0]], rest[0], rest[1..], "");
      assert [rest[0]] + rest[1..] == rest;
    }
  }

  /** The indices of the non-empty strings of a list, in order. */
  function NonEmptyIndices(pieces: seq<string>): (r: seq<nat>)
    ensures forall k :: 0 <= k < |r| ==> r[k] < |pieces|
  {
    if pieces == [] then []
    else
      var x := |pieces| - 1;
      NonEmptyIndices(pieces[..x]) + (if pieces[x] == "" then [] else [x])
  }

  /** A string without the separator's first character is its own single piece. */
  lemma {:induction false} SplitWithoutFirstChar(s: string, sep: string)
    requires sep != [] && sep[0] !in s
    ensures Split(s, sep) == [s]
  {
    forall i ensures !OccursAt(s, sep, i) {
      if 0 <= i < |s| && i + |sep| <= |s| {
        assert s[i..i + |sep|][0] == s[i];
      }
    }
    SplitNoOccurrence(s, sep);
  }

  /** The characters `str.strip()` removes (ASCII whitespace only). */
  predicate IsSpace(c: char)
  {
    c == ' ' || c == '\t' || c == '\n' || c == '\r' || c as int == 11 || c as int == 12
  }

  predicate AllSpace(s: string)
  {
    forall i :: 0 <= i < |s| ==> IsSpace(s[i])
  }

  /** `s.lstrip()` */
  function StripLeft(s: string): (r: string)
    ensures |r| <= |s|
  {
    if |s| > 0 && IsSpace(s[0]) then StripLeft(s[1..]) else s
  }

  /** `lstrip` removes a run of leading whitespace and stops at the first other character. */
  lemma {:induction false} StripLeftSpec(s: string)
    ensures var r := StripLeft(s);
      && r == s[|s| - |r|..] && AllSpace(s[..|s| - |r|])
      && (r != [] ==> !IsSpace(r[0]))
    decreases |s|
  {
    if |s| > 0 && IsSpace(s[0]) {
      var t := s[1..];
      StripLeftSpec(t);
      var r := StripLeft(t);
      assert t[|t| - |r|..] == s[|s| - |r|..];
      var cut, cut' := s[..|s| - |r|], t[..|t| - |r|];
      assert AllSpace(cut) by {
        forall i | 0 <= i < |cut| ensures IsSpace(cut[i]) {
          if i > 0 {
            assert cut[i] == cut'[i - 1];
          }
        }
      }
    } else {
      assert s[..0] == [];
    }
  }

  /** `s.rstrip()` */
  function StripRight(s: string): (r: string)
    ensures |r| <= |s|
  {
    if |s| > 0 && IsSpace(s[|s| - 1]) then StripRight(s[..|s| - 1]) else s
  }

  /** `rstrip` removes a run of trailing whitespace and stops at the last other character. */
  lemma {:induction false} StripRightSpec(s: string)
    ensures var r := StripRight(s);
      && r == s[..|r|] && AllSpace(s[|r|..])
      && (r != [] ==> !IsSpace(r[|r| - 1]))
    decreases |s|
  {
    if |s| > 0 && IsSpace(s[|s| - 1]) {
      var t := s[..|s| - 1];
      StripRightSpec(t);
      var r := StripRight(t);
      assert t[..|r|] == s[..|r|];
      var cut, cut' := s[|r|..], t[|r|..];
      assert AllSpace(cut) by {
        forall i | 0 <= i < |cut| ensures IsSpace(cut[i]) {
          if i < |cut'| {
            assert cut[i] == cut'[i];
          }
        }
      }
    } else {
      assert s[|s|..] == [];
    }
  }

  /** `s.strip()` */
  function Strip(s: string): (r: string)
    ensures |r| <= |s|
    ensures r != [] ==> !IsSpace(r[0]) && !IsSpace(r[|r| - 1])
  {
    var l := StripLeft(s);
    StripLeftSpec(s);
    StripRightSpec(l);
    var r := StripRight(l);
    assert r != [] ==> r[0] == l[0];
    r
  }

  /** r is the part of s that starts at lo, with only whitespace before and after it. */
  predicate WhitespaceAround(s: string, r: string, lo: nat)
  {
    lo + |r| <= |s| && r == s[lo..lo + |r|] && AllSpace(s[..lo]) && AllSpace(s[lo + |r|..])
  }

  /**
   * What `strip` returns: the part of `s` between a run of leading and a run of
   * trailing whitespace.
   */
  lemma {:induction false} StripSpec(s: string)
    ensures exists lo :: WhitespaceAround(s, Strip(s), lo)
  {
    var l := StripLeft(s);
    var r := StripRight(l);
    StripLeftSpec(s);
    StripRightSpec(l);
    var lo := |s| - |l|;
    assert Strip(s) == r;
    assert WhitespaceAround(s, r, lo) by {
      assert l == s[lo..];
      assert r == l[..|r|];
      assert r == s[lo..lo + |r|];
      assert s[lo + |r|..] == l[|r|..];
    }
  }

  /** `strip` gives the empty string exactly on whitespace-only input. */
  lemma {:induction false} StripEmpty(s: string)
    ensures AllSpace(s) <==> Strip(s) == []
  {
    var l := StripLeft(s);
    var lo := |s| - |l|;
    StripLeftSpec(s);
    StripRightSpec(l);
    if Strip(s) == [] {
      assert l[0..] == l;
      assert lo == |s|;
      forall i | 0 <= i < |s|
        ensures IsSpace(s[i])
      {
        assert s[i] == s[..lo][i];
      }
    }
  }

  /**
   * The window StripSpec describes is unique: a part of `s` with whitespace
   * around it and none at its ends is what `strip` returns.
   */
  lemma {:induction false} StripUnique(s: string, lo: nat, hi: nat)
    requires lo < hi <= |s|
    requires AllSpace(s[..lo]) && AllSpace(s[hi..])
    requires !IsSpace(s[lo]) && !IsSpace(s[hi - 1])
    ensures Strip(s) == s[lo..hi]
  {
    var l := s[lo..];
    assert StripLeft(s) == l by {
      StripLeftAt(s, lo);
    }
    assert StripRight(l) == s[lo..hi] by {
      assert l[hi - lo..] == s[hi..];
      assert l[hi - lo - 1] == s[hi - 1];
      StripRightAt(l, hi - lo);
      assert l[..hi - lo] == s[lo..hi];
    }
  }

  lemma {:induction false} StripLeftAt(s: string, lo: nat)
    requires lo < |s| && AllSpace(s[..lo]) && !IsSpace(s[lo])
    ensures StripLeft(s) == s[lo..]
    decreases lo
  {
    if lo > 0 {
      assert s[..lo][0] == s[0];
      assert s[1..][..lo - 1] == s[1..lo];
      assert forall i :: 0 <= i < lo - 1 ==> s[1..lo][i] == s[..lo][i + 1];
      StripLeftAt(s[1..], lo - 1);
      assert s[1..][lo - 1..] == s[lo..];
    }
  }

  lemma {:induction false} StripRightAt(s: string, hi: nat)
    requires 0 < hi <= |s| && AllSpace(s[hi..]) && !IsSpace(s[hi - 1])
    ensures StripRight(s) == s[..hi]
    decreases |s| - hi
  {
    if hi < |s| {
      var t := s[..|s| - 1];
      assert s[hi..][|s| - 1 - hi] == s[|s| - 1];
      assert forall i :: 0 <= i < |t| - hi ==> t[hi..][i] == s[hi..][i];
      StripRightAt(t, hi);
      assert t[..hi] == s[..hi];
    } else {
      assert s[..hi] == s;
    }
  }
}
