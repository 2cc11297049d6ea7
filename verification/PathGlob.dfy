/** Paths split into segments, and patterns over whole paths. */
module PathGlob {
  import opened Types
  import opened Segments

  // ----- Paths as segments ------------------------------------------------------

  function Split(s: Bytes, sep: byte): (parts: seq<Bytes>)
    ensures parts != []
    decreases |s|
  {
    if s == [] then [[]]
    else if s[0] == sep then [[]] + Split(s[1..], sep)
    else Glue([s[0]], Split(s[1..], sep))
  }

  /** What was read of the current segment, put in front of the rest. */
  function Glue(cur: Bytes, parts: seq<Bytes>): (r: seq<Bytes>)
    requires parts != []
    ensures |r| == |parts|
  {
    [cur + parts[0]] + parts[1..]
  }

  function Join(parts: seq<Bytes>, sep: byte): Bytes
    requires parts != []
    decreases |parts|
  {
    if |parts| == 1 then parts[0] else parts[0] + [sep] + Join(parts[1..], sep)
  }

  lemma GlueNothing(parts: seq<Bytes>)
    requires parts != []
    ensures Glue([], parts) == parts
  {
    assert [] + parts[0] == parts[0];
  }

  lemma GlueCut(cur: Bytes, rest: seq<Bytes>)
    ensures Glue(cur, [[]] + rest) == [cur] + rest
  {
    assert cur + [] == cur;
    assert ([[]] + rest)[1..] == rest;
  }

  lemma GlueAgain(u: Bytes, v: Bytes, parts: seq<Bytes>)
    requires parts != []
    ensures Glue(u, Glue(v, parts)) == Glue(u + v, parts)
  {
    assert u + (v + parts[0]) == (u + v) + parts[0];
  }

  /** Splitting loses nothing, and no segment holds the separator. */
  lemma {:induction false} SplitJoins(s: Bytes, sep: byte)
    ensures Join(Split(s, sep), sep) == s
    ensures forall i :: 0 <= i < |Split(s, sep)| ==> sep !in Split(s, sep)[i]
    decreases |s|
  {
    if s != [] {
      var rest := Split(s[1..], sep);
      SplitJoins(s[1..], sep);
      if s[0] == sep {
        assert Split(s, sep)[1..] == rest;
      } else {
      }
    }
  }

  /** Segments without the separator are found again. */
  lemma {:induction false} JoinSplits(parts: seq<Bytes>, sep: byte)
    requires parts != [] && forall i :: 0 <= i < |parts| ==> sep !in parts[i]
    ensures Split(Join(parts, sep), sep) == parts
    decreases |parts|
  {
    if |parts| == 1 {
      SplitPlain(parts[0], [], sep);
      GlueCut(parts[0], []);
      assert parts[0] + [] == parts[0];
    } else {
      JoinSplits(parts[1..], sep);
      var rest := Join(parts[1..], sep);
      SplitPlain(parts[0], [sep] + rest, sep);
      assert parts[0] + [sep] + rest == parts[0] + ([sep] + rest);
      assert ([sep] + rest)[1..] == rest;
      GlueCut(parts[0], parts[1..]);
    }
  }

  lemma {:induction false} SplitPlain(a: Bytes, b: Bytes, sep: byte)
    requires sep !in a
    ensures Split(a + b, sep) == Glue(a, Split(b, sep))
    decreases |a|
  {
    if a == [] {
      assert a + b == b;
      GlueNothing(Split(b, sep));
    } else {
      SplitPlain(a[1..], b, sep);
      assert (a + b)[1..] == a[1..] + b;
      assert [a[0]] + a[1..] == a;
      GlueAgain([a[0]], a[1..], Split(b, sep));
    }
  }

  /** The loop that collects segments. */
  method SplitPath(s: Bytes, sep: byte) returns (out: seq<Bytes>)
    ensures out == Split(s, sep)
  {
    out := [];
    var cur: Bytes := [];
    assert s[0..] == s;
    GlueNothing(Split(s, sep));
    for i := 0 to |s|
      invariant Split(s, sep) == out + Glue(cur, Split(s[i..], sep))
    {
      assert s[i..][1..] == s[i + 1..];
      ghost var rest := Split(s[i + 1..], sep);
      if s[i] == sep {
        GlueCut(cur, rest);
        GlueNothing(rest);
        out := out + [cur];
        cur := [];
      } else {
        GlueAgain(cur, [s[i]], rest);
        cur := cur + [s[i]];
      }
    }
    GlueCut(cur, []);
    out := out + [cur];
  }

  // ----- Patterns over paths ----------------------------------------------------

  const ANY_DEPTH: Bytes := [STAR, STAR]

  /** A segment as a pattern means it, or as the matcher reads it. */
  ghost predicate Reads(meant: bool, pat: Bytes, str: Bytes) {
    if meant then Means(pat, str) else SegMatch(pat, str)
  }

  /** A double star spans zero or more whole segments; anything else takes one. */
  ghost predicate Spans(meant: bool, pat: seq<Bytes>, path: seq<Bytes>)
    decreases |pat|
  {
    if pat == [] then path == []
    else if pat[0] == ANY_DEPTH then exists k :: 0 <= k <= |path| && Spans(meant, pat[1..], path[k..])
    else path != [] && Reads(meant, pat[0], path[0]) && Spans(meant, pat[1..], path[1..])
  }

  method MatchSegments(pat: seq<Bytes>, pi: nat, path: seq<Bytes>, si: nat) returns (matched: bool)
    requires pi <= |pat| && si <= |path|
    ensures matched <==> Spans(false, pat[pi..], path[si..])
    decreases |pat| - pi
  {
    var p, s := pi, si;
    while p < |pat|
      invariant pi <= p <= |pat| && si <= s <= |path|
      invariant Spans(false, pat[pi..], path[si..]) <==> Spans(false, pat[p..], path[s..])
    {
      assert pat[p..][1..] == pat[p + 1..];
      if pat[p] == [STAR, STAR] {
        if p + 1 == |pat| {
          assert path[s..][|path| - s..] == [];
          return true;
        }
        for k := s to |path| + 1
          invariant forall j :: 0 <= j < k - s ==> !Spans(false, pat[p + 1..], path[s..][j..])
        {
          assert path[s..][k - s..] == path[k..];
          var rest := MatchSegments(pat, p + 1, path, k);
          if rest {
            return true;
          }
        }
        return false;
      }
      if s >= |path| {
        return false;
      }
      assert path[s..][1..] == path[s + 1..];
      var fit := MatchSegment(pat[p], path[s]);
      if !fit {
        return false;
      }
      p, s := p + 1, s + 1;
    }
    matched := s == |path|;
  }

  /** A pattern anchored to the root takes the whole path; any other takes one segment. */
  ghost predicate Covers(meant: bool, pattern: Bytes, path: Bytes, anchored: bool) {
    if anchored then Spans(meant, Split(pattern, SLASH), Split(path, SLASH))
    else exists i :: 0 <= i < |Split(path, SLASH)| && Reads(meant, pattern, Split(path, SLASH)[i])
  }

  method GlobMatch(pattern: Bytes, path: Bytes, anchored: bool) returns (matched: bool)
    ensures matched <==> Covers(false, pattern, path, anchored)
  {
    var segs := SplitPath(path, SLASH);
    if anchored {
      var pats := SplitPath(pattern, SLASH);
      assert pats[0..] == pats && segs[0..] == segs;
      matched := MatchSegments(pats, 0, segs, 0);
    } else {
      for i := 0 to |segs|
        invariant forall j :: 0 <= j < i ==> !SegMatch(pattern, segs[j])
      {
        var fit := MatchSegment(pattern, segs[i]);
        if fit {
          return true;
        }
      }
      matched := false;
    }
  }

  lemma {:induction false} SpansGrows(f: bool, g: bool, pat: seq<Bytes>, path: seq<Bytes>)
    requires forall x, i :: 0 <= i < |path| && Reads(f, x, path[i]) ==> Reads(g, x, path[i])
    requires Spans(f, pat, path)
    ensures Spans(g, pat, path)
    decreases |pat|
  {
    if pat != [] {
      if pat[0] == ANY_DEPTH {
        var k :| 0 <= k <= |path| && Spans(f, pat[1..], path[k..]);
        SpansGrows(f, g, pat[1..], path[k..]);
      } else {
        SpansGrows(f, g, pat[1..], path[1..]);
      }
    }
  }

  lemma CoversGrows(f: bool, g: bool, pattern: Bytes, path: Bytes, anchored: bool)
    requires forall x, i :: 0 <= i < |Split(path, SLASH)| && Reads(f, x, Split(path, SLASH)[i]) ==> Reads(g, x, Split(path, SLASH)[i])
    requires Covers(f, pattern, path, anchored)
    ensures Covers(g, pattern, path, anchored)
  {
    if anchored {
      SpansGrows(f, g, Split(pattern, SLASH), Split(path, SLASH));
    }
  }

  /** What the program matches, the pattern covers: for every pattern and every path. */
  lemma MatchesAreCovered(pattern: Bytes, path: Bytes, anchored: bool)
    requires Covers(false, pattern, path, anchored)
    ensures Covers(true, pattern, path, anchored)
  {
    forall x: Bytes, i | 0 <= i < |Split(path, SLASH)| && SegMatch(x, Split(path, SLASH)[i])
      ensures Means(x, Split(path, SLASH)[i])
    {
      SegMatchIsSound(x, Split(path, SLASH)[i]);
    }
    CoversGrows(false, true, pattern, path, anchored);
  }

  lemma {:induction false} JoinHolds(parts: seq<Bytes>, sep: byte, c: byte)
    requires parts != [] && c != sep
    ensures c in Join(parts, sep) <==> exists i :: 0 <= i < |parts| && c in parts[i]
    decreases |parts|
  {
    if |parts| > 1 {
      JoinHolds(parts[1..], sep, c);
      if c in Join(parts[1..], sep) {
        var i :| 0 <= i < |parts[1..]| && c in parts[1..][i];
        assert c in parts[i + 1];
      }
      if i :| 0 <= i < |parts| && c in parts[i] {
        assert i > 0 ==> c in parts[1..][i - 1];
      }
    }
  }

  lemma {:induction false} SpansPointwise(meant: bool, pat: seq<Bytes>, path: seq<Bytes>)
    requires |pat| == |path| && forall i :: 0 <= i < |pat| ==> pat[i] != ANY_DEPTH
    ensures Spans(meant, pat, path) <==> forall i :: 0 <= i < |pat| ==> Reads(meant, pat[i], path[i])
    decreases |pat|
  {
    if pat != [] {
      SpansPointwise(meant, pat[1..], path[1..]);
      if forall i :: 0 <= i < |pat[1..]| ==> Reads(meant, pat[1..][i], path[1..][i]) {
        forall i | 1 <= i < |pat|
          ensures Reads(meant, pat[i], path[i])
        {
          assert pat[i] == pat[1..][i - 1] && path[i] == path[1..][i - 1];
        }
      }
    }
  }

  /** One question mark for each character. */
  function Marks(n: nat): Bytes {
    seq(n, _ => QUESTION)
  }

  lemma {:induction false} MarksMean(str: Bytes)
    ensures Means(Marks(|str|), str)
  {
    if str != [] {
      MarksMean(str[1..]);
      assert Marks(|str|)[1..] == Marks(|str[1..]|);
    }
  }

  /** A path with a star of its own has a pattern that covers it and is not matched. */
  lemma PathMisreadBy(path: Bytes) returns (pattern: Bytes)
    requires STAR in path
    ensures Covers(true, pattern, path, true) && !Covers(false, pattern, path, true)
  {
    var parts := Split(path, SLASH);
    SplitJoins(path, SLASH);
    JoinHolds(parts, SLASH, STAR);
    var i :| 0 <= i < |parts| && STAR in parts[i];
    var q := MisreadBy(parts[i]);
    var pats := seq(|parts|, j requires 0 <= j < |parts| => if j == i then q else Marks(|parts[j]|));
    forall j | 0 <= j < |parts|
      ensures SLASH !in pats[j] && pats[j] != ANY_DEPTH && Means(pats[j], parts[j])
    {
      MarksMean(parts[j]);
      assert j != i && |parts[j]| > 0 ==> pats[j][0] == QUESTION;
    }
    pattern := Join(pats, SLASH);
    JoinSplits(pats, SLASH);
    SpansPointwise(true, pats, parts);
    SpansPointwise(false, pats, parts);
    assert !SegMatch(pats[i], parts[i]);
  }

  /** For which paths every pattern is matched as it is meant. */
  lemma PathsReadExactly(path: Bytes)
    ensures (forall pattern, anchored :: Covers(false, pattern, path, anchored) <==> Covers(true, pattern, path, anchored))
            <==> STAR !in path
  {
    if STAR in path {
      var pattern := PathMisreadBy(path);
    } else {
      forall pattern: Bytes, anchored
        ensures Covers(false, pattern, path, anchored) <==> Covers(true, pattern, path, anchored)
      {
        PlainPath(pattern, path, anchored);
      }
    }
  }

  lemma PlainPath(pattern: Bytes, path: Bytes, anchored: bool)
    requires STAR !in path
    ensures Covers(false, pattern, path, anchored) <==> Covers(true, pattern, path, anchored)
  {
    var parts := Split(path, SLASH);
    SplitJoins(path, SLASH);
    JoinHolds(parts, SLASH, STAR);
    if Covers(true, pattern, path, anchored) {
      forall x: Bytes, i | 0 <= i < |parts| && Means(x, parts[i])
        ensures SegMatch(x, parts[i])
      {
        SegMatchIsComplete(x, parts[i]);
      }
      CoversGrows(true, false, pattern, path, anchored);
    }
    if Covers(false, pattern, path, anchored) {
      MatchesAreCovered(pattern, path, anchored);
    }
  }

  // ----- At any depth -----------------------------------------------------------

  /** An unanchored pattern spelled out: itself, with anything before and anything after. */
  function AtAnyDepth(pattern: Bytes): Bytes {
    Join([ANY_DEPTH, pattern, ANY_DEPTH], SLASH)
  }

  lemma TailSpansAll(meant: bool, path: seq<Bytes>)
    ensures Spans(meant, [ANY_DEPTH], path)
  {
    assert path[|path|..] == [];
    assert Spans(meant, [ANY_DEPTH][1..], path[|path|..]);
  }

  /** One segment with anything after it, at the start of a path. */
  lemma HeadSpans(meant: bool, pattern: Bytes, path: seq<Bytes>)
    requires pattern != ANY_DEPTH
    ensures Spans(meant, [pattern, ANY_DEPTH], path) <==> path != [] && Reads(meant, pattern, path[0])
  {
    assert [pattern, ANY_DEPTH][1..] == [ANY_DEPTH];
    if path != [] {
      TailSpansAll(meant, path[1..]);
    }
  }

  lemma AnywhereSpans(meant: bool, pattern: Bytes, path: seq<Bytes>)
    requires pattern != ANY_DEPTH
    ensures Spans(meant, [ANY_DEPTH, pattern, ANY_DEPTH], path) <==>
            exists i :: 0 <= i < |path| && Reads(meant, pattern, path[i])
  {
    var pats := [ANY_DEPTH, pattern, ANY_DEPTH];
    assert pats[1..] == [pattern, ANY_DEPTH];
    hide Reads;
    forall k | 0 <= k <= |path|
      ensures Spans(meant, pats[1..], path[k..]) <==> k < |path| && Reads(meant, pattern, path[k])
    {
      HeadSpans(meant, pattern, path[k..]);
    }
  }

  /** A pattern without a slash matches at any depth: it says the same anchored, between two
      double stars, to the matcher as well as to the reader. */
  lemma UnanchoredIsAtAnyDepth(meant: bool, pattern: Bytes, path: Bytes)
    requires SLASH !in pattern && pattern != ANY_DEPTH
    ensures Covers(meant, pattern, path, false) <==> Covers(meant, AtAnyDepth(pattern), path, true)
  {
    JoinSplits([ANY_DEPTH, pattern, ANY_DEPTH], SLASH);
    AnywhereSpans(meant, pattern, Split(path, SLASH));
  }

  /** A double star is a pattern for a single name too, and there it has names it misses. */
  predicate TwoStarsAndMore(str: Bytes) {
    |str| > 2 && str[0] == STAR && str[1] == STAR
  }

  lemma {:induction false} LastStarTakesAll(str: Bytes, mark: nat)
    requires mark <= |str|
    ensures Walk(ANY_DEPTH, str, 2, mark, Some(1), mark)
    decreases |str| - mark
  {
    if mark < |str| {
      LastStarTakesAll(str, mark + 1);
    }
  }

  lemma LoneDoubleStar(str: Bytes)
    ensures SegMatch(ANY_DEPTH, str) <==> !TwoStarsAndMore(str)
  {
    assert SkipStars(ANY_DEPTH, 2) == SkipStars(ANY_DEPTH, 1) == SkipStars(ANY_DEPTH, 0) == 2;
    if str != [] && str[0] == STAR {
      assert SegMatch(ANY_DEPTH, str) == Walk(ANY_DEPTH, str, 1, 1, None, 0);
      if |str| > 1 && str[1] == STAR {
        assert SegMatch(ANY_DEPTH, str) == Walk(ANY_DEPTH, str, 2, 2, None, 0);
      } else {
        LastStarTakesAll(str, 1);
      }
    } else {
      LastStarTakesAll(str, 0);
      assert str != [] ==> SegMatch(ANY_DEPTH, str) == Walk(ANY_DEPTH, str, 1, 0, Some(0), 0);
    }
  }

  lemma ThreeDoubleStarsSpan(meant: bool, path: seq<Bytes>)
    ensures Spans(meant, [ANY_DEPTH, ANY_DEPTH, ANY_DEPTH], path)
  {
    assert path[0..] == path;
    assert [ANY_DEPTH, ANY_DEPTH, ANY_DEPTH][1..] == [ANY_DEPTH, ANY_DEPTH] && [ANY_DEPTH, ANY_DEPTH][1..] == [ANY_DEPTH];
    TailSpansAll(meant, path);
    assert Spans(meant, [ANY_DEPTH, ANY_DEPTH], path);
  }

  /** Every segment of the path is one a lone double star misses. */
  ghost predicate Starry(path: Bytes) {
    forall i :: 0 <= i < |Split(path, SLASH)| ==> TwoStarsAndMore(Split(path, SLASH)[i])
  }

  lemma LoneDoubleStarCovers(path: Bytes)
    ensures Covers(false, ANY_DEPTH, path, false) <==> !Starry(path)
  {
    var parts := Split(path, SLASH);
    forall i | 0 <= i < |parts|
      ensures Reads(false, ANY_DEPTH, parts[i]) <==> !TwoStarsAndMore(parts[i])
    {
      LoneDoubleStar(parts[i]);
    }
    hide Split, Reads, TwoStarsAndMore;
  }

  /** When the matcher reads an unanchored pattern as the anchored one it stands for. */
  lemma AnyDepthExactly(pattern: Bytes, path: Bytes)
    requires SLASH !in pattern
    ensures (Covers(false, pattern, path, false) <==> Covers(false, AtAnyDepth(pattern), path, true))
            <==> pattern != ANY_DEPTH || !Starry(path)
  {
    if pattern != ANY_DEPTH {
      UnanchoredIsAtAnyDepth(false, pattern, path);
    } else {
      JoinSplits([ANY_DEPTH, pattern, ANY_DEPTH], SLASH);
      ThreeDoubleStarsSpan(false, Split(path, SLASH));
      assert Covers(false, AtAnyDepth(pattern), path, true);
      LoneDoubleStarCovers(path);
    }
  }
}
