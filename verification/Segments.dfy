/** The wildcard matcher for one path segment, which goes back to the last star only. */
module Segments {
  import opened Types

  const STAR: byte := 42
  const QUESTION: byte := 63
  const SLASH: byte := 47

  // ----- What a pattern means ---------------------------------------------------

  predicate Fits(c: byte, x: byte) {
    c == QUESTION || c == x
  }

  /** A star stands for any run of characters, a question mark for one. */
  ghost predicate Means(pat: Bytes, str: Bytes)
    decreases |pat|
  {
    if pat == [] then str == []
    else if pat[0] == STAR then exists k :: 0 <= k <= |str| && Means(pat[1..], str[k..])
    else str != [] && Fits(pat[0], str[0]) && Means(pat[1..], str[1..])
  }

  lemma StarMeans(pat: Bytes, str: Bytes)
    requires pat != [] && pat[0] == STAR
    ensures Means(pat, str) <==> Means(pat[1..], str) || (str != [] && Means(pat, str[1..]))
  {
    assert str[0..] == str;
    if str != [] {
      forall k | 1 <= k <= |str|
        ensures str[1..][k - 1..] == str[k..]
      {
      }
      if Means(pat, str) && !Means(pat[1..], str) {
        var k :| 0 <= k <= |str| && Means(pat[1..], str[k..]);
        assert str[1..][k - 1..] == str[k..];
      }
      if Means(pat, str[1..]) {
        var k :| 0 <= k <= |str| - 1 && Means(pat[1..], str[1..][k..]);
        assert str[1..][k..] == str[k + 1..];
      }
    }
  }

  // ----- The matcher ------------------------------------------------------------

  function SkipStars(pat: Bytes, p: nat): nat
    requires p <= |pat|
    ensures p <= SkipStars(pat, p) <= |pat|
    decreases |pat| - p
  {
    if p < |pat| && pat[p] == STAR then SkipStars(pat, p + 1) else p
  }

  /** The positions the matcher holds: in the pattern and the name, the last star it
      stepped over, and where that star's run currently ends. */
  predicate Positions(pat: Bytes, str: Bytes, p: nat, s: nat, star: Option<nat>, mark: nat) {
    && p <= |pat| && s <= |str| && mark <= s
    && (star.Some? ==> star.value < p && pat[star.value] == STAR)
  }

  /** From those positions on. Each new star lies further right than the last, and each
      retry moves the mark right, which is why it ends. */
  function Walk(pat: Bytes, str: Bytes, p: nat, s: nat, star: Option<nat>, mark: nat): bool
    requires Positions(pat, str, p, s, star, mark)
    decreases if star.Some? then |pat| - star.value else |pat| + 1, |str| - mark, |str| - s + |pat| - p
  {
    if s == |str| then SkipStars(pat, p) == |pat|
    else if p < |pat| && Fits(pat[p], str[s]) then Walk(pat, str, p + 1, s + 1, star, mark)
    else if p < |pat| && pat[p] == STAR then Walk(pat, str, p + 1, s, Some(p), s)
    else if star.Some? then Walk(pat, str, star.value + 1, mark + 1, star, mark + 1)
    else false
  }

  function SegMatch(pat: Bytes, str: Bytes): bool {
    Walk(pat, str, 0, 0, None, 0)
  }

  lemma {:induction false} SkipStarsMeans(pat: Bytes, p: nat)
    requires p <= |pat|
    ensures SkipStars(pat, p) == |pat| <==> Means(pat[p..], [])
    decreases |pat| - p
  {
    if p < |pat| {
      SkipStarsMeans(pat, p + 1);
      assert pat[p..][1..] == pat[p + 1..];
      if pat[p] == STAR {
        StarMeans(pat[p..], []);
      }
    }
  }

  /** One pattern character that is not a star against one character. */
  lemma CharMeans(pat: Bytes, str: Bytes, p: nat, s: nat)
    requires p < |pat| && s < |str| && pat[p] != STAR
    ensures Means(pat[p..], str[s..]) <==> Fits(pat[p], str[s]) && Means(pat[p + 1..], str[s + 1..])
  {
    assert pat[p..][1..] == pat[p + 1..] && str[s..][1..] == str[s + 1..];
  }

  lemma StarHere(pat: Bytes, str: Bytes, p: nat, s: nat)
    requires p < |pat| && s <= |str| && pat[p] == STAR
    ensures Means(pat[p..], str[s..]) <==>
            Means(pat[p + 1..], str[s..]) || (s < |str| && Means(pat[p..], str[s + 1..]))
  {
    assert pat[p..][1..] == pat[p + 1..];
    assert s < |str| ==> str[s..][1..] == str[s + 1..];
    StarMeans(pat[p..], str[s..]);
  }

  /** The state's promise: what the matcher still has to decide. */
  ghost predicate Goal(pat: Bytes, str: Bytes, p: nat, s: nat, star: Option<nat>, mark: nat)
    requires Positions(pat, str, p, s, star, mark)
  {
    if star.Some? then Means(pat[star.value..], str[mark..]) else Means(pat[p..], str[s..])
  }

  /** What the matcher accepts the pattern means, for every pattern and every name. */
  lemma {:induction false} WalkIsSound(pat: Bytes, str: Bytes, p: nat, s: nat, star: Option<nat>, mark: nat)
    requires Positions(pat, str, p, s, star, mark) && Walk(pat, str, p, s, star, mark)
    requires Means(pat[p..], str[s..]) ==> Goal(pat, str, p, s, star, mark)
    ensures Goal(pat, str, p, s, star, mark)
    decreases if star.Some? then |pat| - star.value else |pat| + 1, |str| - mark, |str| - s + |pat| - p
  {
    hide Means, SkipStars;
    if s == |str| {
      SkipStarsMeans(pat, p);
      assert str[s..] == [];
    } else if p < |pat| && Fits(pat[p], str[s]) {
      if pat[p] == STAR {
        StarHere(pat, str, p, s);
        StarHere(pat, str, p, s + 1);
      } else {
        CharMeans(pat, str, p, s);
      }
      WalkIsSound(pat, str, p + 1, s + 1, star, mark);
    } else if p < |pat| && pat[p] == STAR {
      StarHere(pat, str, p, s);
      WalkIsSound(pat, str, p + 1, s, Some(p), s);
    } else {
      StarHere(pat, str, star.value, mark);
      StarHere(pat, str, star.value, mark + 1);
      WalkIsSound(pat, str, star.value + 1, mark + 1, star, mark + 1);
    }
  }

  /** Since the last star, pattern and name have agreed character by character. */
  ghost predicate Aligned(pat: Bytes, str: Bytes, p: nat, s: nat, star: nat, mark: nat)
    requires star < p <= |pat| && mark <= s <= |str|
  {
    && p - star - 1 == s - mark
    && forall j :: star < j < p ==> pat[j] != STAR && Fits(pat[j], str[j - p + s])
  }

  /** A stretch of pattern without a star takes exactly its own length of the name. */
  lemma {:induction false} FixedPrefix(pat: Bytes, str: Bytes, n: nat)
    requires n <= |pat| && forall i :: 0 <= i < n ==> pat[i] != STAR
    ensures Means(pat, str) ==> n <= |str| && Means(pat[n..], str[n..])
    ensures n <= |str| && (forall i :: 0 <= i < n ==> Fits(pat[i], str[i])) && Means(pat[n..], str[n..]) ==> Means(pat, str)
  {
    if n == 0 {
      assert pat[0..] == pat && str[0..] == str;
    } else if str != [] {
      FixedPrefix(pat[1..], str[1..], n - 1);
      assert pat[1..][n - 1..] == pat[n..];
      assert n <= |str| ==> str[1..][n - 1..] == str[n..];
    }
  }

  lemma AlignedMeans(pat: Bytes, str: Bytes, p: nat, s: nat, star: nat, mark: nat, k: nat)
    requires star < p <= |pat| && mark <= s <= |str| && Aligned(pat, str, p, s, star, mark) && mark + k <= |str|
    ensures Means(pat[star + 1..], str[mark + k..]) ==> s + k <= |str| && Means(pat[p..], str[s + k..])
    ensures k == 0 && Means(pat[p..], str[s..]) ==> Means(pat[star + 1..], str[mark..])
  {
    var n := s - mark;
    forall i | 0 <= i < n
      ensures pat[star + 1..][i] != STAR && (k == 0 ==> Fits(pat[star + 1..][i], str[mark..][i]))
    {
      var j := star + 1 + i;
      assert pat[star + 1..][i] == pat[j];
    }
    FixedPrefix(pat[star + 1..], str[mark + k..], n);
    assert pat[star + 1..][n..] == pat[p..];
    assert s + k <= |str| ==> str[mark + k..][n..] == str[s + k..];
  }

  /** Meeting a further star, the matcher may forget the one before it. */
  lemma NextStarSuffices(pat: Bytes, str: Bytes, p: nat, s: nat, star: nat, mark: nat)
    requires star < p < |pat| && mark <= s <= |str| && Aligned(pat, str, p, s, star, mark)
    requires pat[star] == STAR && pat[p] == STAR
    ensures Means(pat[star..], str[mark..]) <==> Means(pat[p..], str[s..])
  {
    assert pat[star..][1..] == pat[star + 1..];
    AlignedMeans(pat, str, p, s, star, mark, 0);
    StarHere(pat, str, star, mark);
    if Means(pat[star..], str[mark..]) {
      var k :| 0 <= k <= |str| - mark && Means(pat[star + 1..], str[mark..][k..]);
      assert str[mark..][k..] == str[mark + k..];
      AlignedMeans(pat, str, p, s, star, mark, k);
      assert str[s..][k..] == str[s + k..];
    }
  }

  lemma EndOfName(pat: Bytes, str: Bytes, p: nat, star: nat, mark: nat)
    requires star < p <= |pat| && mark <= |str| && Aligned(pat, str, p, |str|, star, mark) && pat[star] == STAR
    ensures Means(pat[star..], str[mark..]) <==> Means(pat[p..], [])
  {
    assert pat[star..][1..] == pat[star + 1..];
    AlignedMeans(pat, str, p, |str|, star, mark, 0);
    assert str[|str|..] == [];
    StarHere(pat, str, star, mark);
    if Means(pat[star..], str[mark..]) {
      var k :| 0 <= k <= |str| - mark && Means(pat[star + 1..], str[mark..][k..]);
      assert str[mark..][k..] == str[mark + k..];
      AlignedMeans(pat, str, p, |str|, star, mark, k);
    }
  }

  lemma NoFit(pat: Bytes, str: Bytes, p: nat, s: nat)
    requires p <= |pat| && s < |str| && (p < |pat| ==> pat[p] != STAR && !Fits(pat[p], str[s]))
    ensures !Means(pat[p..], str[s..])
  {
  }

  /** On a name without a literal star, going back to the last star only is enough. */
  lemma {:induction false} WalkIsComplete(pat: Bytes, str: Bytes, p: nat, s: nat, star: Option<nat>, mark: nat)
    requires Positions(pat, str, p, s, star, mark) && STAR !in str
    requires star.Some? ==> Aligned(pat, str, p, s, star.value, mark)
    ensures Walk(pat, str, p, s, star, mark) <==> Goal(pat, str, p, s, star, mark)
    decreases if star.Some? then |pat| - star.value else |pat| + 1, |str| - mark, |str| - s + |pat| - p
  {
    hide Means, SkipStars;
    if s == |str| {
      SkipStarsMeans(pat, p);
      assert str[s..] == [];
      if star.Some? {
        EndOfName(pat, str, p, star.value, mark);
      }
    } else if p < |pat| && Fits(pat[p], str[s]) {
      CharMeans(pat, str, p, s);
      WalkIsComplete(pat, str, p + 1, s + 1, star, mark);
    } else if p < |pat| && pat[p] == STAR {
      if star.Some? {
        NextStarSuffices(pat, str, p, s, star.value, mark);
      }
      WalkIsComplete(pat, str, p + 1, s, Some(p), s);
    } else {
      NoFit(pat, str, p, s);
      if star.Some? {
        AlignedMeans(pat, str, p, s, star.value, mark, 0);
        StarHere(pat, str, star.value, mark);
        WalkIsComplete(pat, str, star.value + 1, mark + 1, star, mark + 1);
      }
    }
  }

  /** A pattern without a star is compared character by character, whatever the name. */
  lemma {:induction false} PlainWalk(pat: Bytes, str: Bytes, p: nat, s: nat)
    requires p <= |pat| && s <= |str| && STAR !in pat
    ensures Walk(pat, str, p, s, None, 0) <==> Means(pat[p..], str[s..])
    decreases |str| - s
  {
    if s == |str| {
      SkipStarsMeans(pat, p);
      assert str[s..] == [];
    } else if p < |pat| {
      CharMeans(pat, str, p, s);
      if Fits(pat[p], str[s]) {
        PlainWalk(pat, str, p + 1, s + 1);
      }
    }
  }

  lemma SegMatchIsSound(pat: Bytes, str: Bytes)
    requires SegMatch(pat, str)
    ensures Means(pat, str)
  {
    assert pat[0..] == pat && str[0..] == str;
    WalkIsSound(pat, str, 0, 0, None, 0);
  }

  lemma SegMatchIsComplete(pat: Bytes, str: Bytes)
    requires STAR !in str || STAR !in pat
    ensures SegMatch(pat, str) <==> Means(pat, str)
  {
    assert pat[0..] == pat && str[0..] == str;
    if STAR !in str {
      WalkIsComplete(pat, str, 0, 0, None, 0);
    } else {
      PlainWalk(pat, str, 0, 0);
    }
  }

  // ----- Names with a star of their own -----------------------------------------

  lemma {:induction false} MeansAppend(a: Bytes, x: Bytes, b: Bytes, y: Bytes)
    requires Means(a, x) && Means(b, y)
    ensures Means(a + b, x + y)
    decreases |a|
  {
    var k := MeansHead(a, x);
    hide *;
    if a == [] {
      assert a + b == b && x + y == y;
    } else {
      MeansAppend(a[1..], x[k..], b, y);
      assert (a + b)[1..] == a[1..] + b && (x + y)[k..] == x[k..] + y;
      HeadMeans(a + b, x + y, k);
    }
  }

  /** What the first character of a pattern takes of a name it means. */
  lemma MeansHead(pat: Bytes, str: Bytes) returns (k: nat)
    requires Means(pat, str)
    ensures pat == [] ==> str == []
    ensures pat != [] ==> k <= |str| && Means(pat[1..], str[k..])
    ensures pat != [] && pat[0] != STAR ==> k == 1 && Fits(pat[0], str[0])
  {
    if pat != [] && pat[0] == STAR {
      k :| 0 <= k <= |str| && Means(pat[1..], str[k..]);
    } else {
      k := 1;
    }
  }

  lemma HeadMeans(pat: Bytes, str: Bytes, k: nat)
    requires pat != [] && k <= |str| && Means(pat[1..], str[k..])
    requires pat[0] != STAR ==> k == 1 && Fits(pat[0], str[0])
    ensures Means(pat, str)
  {
  }

  lemma {:induction false} MeansItself(u: Bytes)
    ensures Means(u, u)
  {
    if u != [] {
      MeansItself(u[1..]);
      if u[0] == STAR {
        StarMeans(u, u);
        StarMeans(u, u[1..]);
      }
    }
  }

  /** Where pattern and name start alike the matcher steps over both, stars included. */
  lemma {:induction false} CommonStart(pat: Bytes, str: Bytes, n: nat)
    requires n <= |pat| && n <= |str| && pat[..n] == str[..n]
    ensures SegMatch(pat, str) == Walk(pat, str, n, n, None, 0)
  {
    if n > 0 {
      assert pat[..n - 1] == pat[..n][..n - 1] == str[..n - 1];
      CommonStart(pat, str, n - 1);
      assert pat[n - 1] == pat[..n][n - 1] == str[n - 1];
    }
  }

  lemma {:induction false} FirstStar(str: Bytes) returns (i: nat)
    requires STAR in str
    ensures i < |str| && str[i] == STAR && STAR !in str[..i]
  {
    i := 0;
    while str[i] != STAR
      invariant i < |str| && STAR !in str[..i] && STAR in str[i..]
      decreases |str| - i
    {
      assert str[i..] == [str[i]] + str[i + 1..];
      i := i + 1;
    }
  }

  /** A pattern the matcher gets wrong on a name holding a star: up to that star it agrees
      literally, so no star is left to swallow the rest. */
  lemma MisreadBy(str: Bytes) returns (pat: Bytes)
    requires STAR in str
    ensures Means(pat, str) && !SegMatch(pat, str)
    ensures SLASH !in str ==> SLASH !in pat
    ensures pat != [STAR, STAR]
  {
    var i := FirstStar(str);
    var u, rest := str[..i], str[i + 1..];
    var end := if rest == [] then [STAR, QUESTION] else [STAR];
    pat := u + end;
    assert str == u + ([STAR] + rest);
    hide *;
    MeansItself(u);
    StarThen(rest);
    MeansAppend(u, u, end, [STAR] + rest);
    NoStarLeft(u, rest, end);
  }

  lemma NoStarLeft(u: Bytes, rest: Bytes, end: Bytes)
    requires STAR !in u && end == if rest == [] then [STAR, QUESTION] else [STAR]
    ensures !SegMatch(u + end, u + ([STAR] + rest))
    ensures u + end != [STAR, STAR]
  {
    var pat, str, n := u + end, u + ([STAR] + rest), |u| + 1;
    assert QUESTION != STAR;
    hide *;
    assert pat[..n] == u + [STAR] == str[..n];
    assert pat[|u|] == STAR && (rest == [] ==> pat[n] == QUESTION);
    CommonStart(pat, str, n);
    NowhereToGo(pat, str, n);
    assert |u| > 0 ==> pat[0] == u[0] && u[0] in u;
  }

  /** With no star to go back to: pattern left over at the end of the name, or name left over
      at the end of the pattern. */
  lemma NowhereToGo(pat: Bytes, str: Bytes, n: nat)
    requires n <= |pat| && n <= |str|
    requires (n == |str| && n < |pat| && pat[n] == QUESTION) || (n == |pat| && n < |str|)
    ensures !Walk(pat, str, n, n, None, 0)
  {
  }

  lemma StarThen(rest: Bytes)
    ensures Means(if rest == [] then [STAR, QUESTION] else [STAR], [STAR] + rest)
  {
    var n := |[STAR] + rest|;
    assert [STAR, QUESTION][1..] == [QUESTION] && [QUESTION][1..] == [] && [STAR][1..] == [];
    assert ([STAR] + rest)[n..] == [];
    assert rest == [] ==> ([STAR] + rest)[0..] == [STAR];
    assert Means([QUESTION], [STAR]);
  }

  /** For which names the matcher and the meaning agree on every pattern. */
  lemma NamesReadExactly(str: Bytes)
    ensures (forall pat :: SegMatch(pat, str) <==> Means(pat, str)) <==> STAR !in str
  {
    if STAR in str {
      var pat := MisreadBy(str);
    } else {
      forall pat: Bytes
        ensures SegMatch(pat, str) <==> Means(pat, str)
      {
        SegMatchIsComplete(pat, str);
      }
    }
  }

  lemma {:induction false} LastStar(pat: Bytes) returns (i: nat)
    requires STAR in pat
    ensures i < |pat| && pat[i] == STAR && STAR !in pat[i + 1..]
  {
    if STAR in pat[1..] {
      i := LastStar(pat[1..]);
      i := i + 1;
      assert pat[i] == pat[1..][i - 1];
      assert pat[1..][i..] == pat[i + 1..];
    } else {
      i := 0;
    }
  }

  /** A name the matcher gets wrong with a pattern holding a star: the pattern itself with
      one more character for its last star to swallow. */
  lemma MisledBy(pat: Bytes) returns (str: Bytes)
    requires STAR in pat
    ensures Means(pat, str) && !SegMatch(pat, str)
  {
    var i := LastStar(pat);
    var u, w := pat[..i], pat[i + 1..];
    str := u + [STAR, 0] + w;
    assert [STAR, 0][2..] == [] && [STAR][1..] == [];
    assert Means([STAR], [STAR, 0]);
    hide Means, Walk, SegMatch;
    assert pat == u + ([STAR] + w);
    assert str == u + ([STAR, 0] + w);
    assert str[..i + 1] == pat[..i + 1];
    CommonStart(pat, str, i + 1);
    if SegMatch(pat, str) {
      PlainTail(pat, str, i + 1, i + 1);
    }
    MeansItself(u);
    MeansItself(w);
    MeansAppend([STAR], [STAR, 0], w, w);
    MeansAppend(u, u, [STAR] + w, [STAR, 0] + w);
  }

  /** Past its last star, with no star to go back to, lengths must agree. */
  lemma {:induction false} PlainTail(pat: Bytes, str: Bytes, p: nat, s: nat)
    requires p <= |pat| && s <= |str| && STAR !in pat[p..] && Walk(pat, str, p, s, None, 0)
    ensures |pat| - p == |str| - s
    decreases |pat| - p
  {
    if p < |pat| {
      assert pat[p] == pat[p..][0];
      assert pat[p + 1..] == pat[p..][1..];
      if s < |str| {
        PlainTail(pat, str, p + 1, s + 1);
      }
    }
  }

  /** For which patterns the matcher and the meaning agree on every name. */
  lemma PatternsReadExactly(pat: Bytes)
    ensures (forall str :: SegMatch(pat, str) <==> Means(pat, str)) <==> STAR !in pat
  {
    if STAR in pat {
      var str := MisledBy(pat);
    } else {
      forall str: Bytes
        ensures SegMatch(pat, str) <==> Means(pat, str)
      {
        SegMatchIsComplete(pat, str);
      }
    }
  }

  /** The loop: positions p and s, the last star, and the mark its run has reached. */
  method MatchSegment(pat: Bytes, str: Bytes) returns (matched: bool)
    ensures matched == SegMatch(pat, str)
    ensures matched ==> Means(pat, str)
    ensures STAR !in str ==> (matched <==> Means(pat, str))
  {
    var p: nat, s: nat, mark: nat := 0, 0, 0;
    var star: Option<nat> := None;
    if SegMatch(pat, str) {
      SegMatchIsSound(pat, str);
    }
    if STAR !in str {
      SegMatchIsComplete(pat, str);
    }
    while s < |str|
      invariant Positions(pat, str, p, s, star, mark)
      invariant SegMatch(pat, str) == Walk(pat, str, p, s, star, mark)
      decreases if star.Some? then |pat| - star.value else |pat| + 1, |str| - mark, |str| - s + |pat| - p
    {
      if p < |pat| && (pat[p] == QUESTION || pat[p] == str[s]) {
        p, s := p + 1, s + 1;
      } else if p < |pat| && pat[p] == STAR {
        star := Some(p);
        p := p + 1;
        mark := s;
      } else if star.Some? {
        p := star.value + 1;
        mark := mark + 1;
        s := mark;
      } else {
        return false;
      }
    }
    ghost var q := p;
    while p < |pat| && pat[p] == STAR
      invariant q <= p <= |pat| && SkipStars(pat, q) == SkipStars(pat, p)
    {
      p := p + 1;
    }
    matched := p == |pat|;
  }
}
