/** The ignore list: rules read from lines, the last applicable one deciding. */
module Ignore {
  import opened Types
  import opened Segments
  import opened PathGlob

  const HASH: byte := 35
  const BANG: byte := 33
  const RETURN: byte := 13

  // ----- The rule list ----------------------------------------------------------

  datatype Rule = Rule(pattern: Bytes, negate: bool, dirOnly: bool, anchored: bool)

  ghost predicate Applies(r: Rule, path: Path, isDir: bool) {
    (r.dirOnly ==> isDir) && Covers(false, r.pattern, path, r.anchored)
  }

  /** The last rule that applies to a path decides; with none, it is not ignored. */
  ghost predicate Ignores(rules: seq<Rule>, path: Path, isDir: bool) {
    exists i :: 0 <= i < |rules| && Applies(rules[i], path, isDir) && !rules[i].negate &&
      forall j :: i < j < |rules| ==> !Applies(rules[j], path, isDir)
  }

  lemma LaterRuleWins(rules: seq<Rule>, r: Rule, path: Path, isDir: bool)
    ensures Ignores(rules + [r], path, isDir) <==>
            if Applies(r, path, isDir) then !r.negate else Ignores(rules, path, isDir)
  {
    hide Applies;
    var all := rules + [r];
    assert all[|rules|] == r;
    if Applies(r, path, isDir) {
      if !r.negate {
        assert Applies(all[|rules|], path, isDir);
      }
    } else {
      if Ignores(rules, path, isDir) {
        var i :| 0 <= i < |rules| && Applies(rules[i], path, isDir) && !rules[i].negate &&
          forall j :: i < j < |rules| ==> !Applies(rules[j], path, isDir);
        assert all[i] == rules[i];
      }
      if Ignores(all, path, isDir) {
        var i :| 0 <= i < |all| && Applies(all[i], path, isDir) && !all[i].negate &&
          forall j :: i < j < |all| ==> !Applies(all[j], path, isDir);
        assert all[i] == rules[i];
        assert forall j :: i < j < |rules| ==> rules[j] == all[j];
      }
    }
  }

  function WithoutReturn(raw: Bytes): Bytes {
    if raw != [] && raw[|raw| - 1] == RETURN then raw[..|raw| - 1] else raw
  }

  /** The rule a line of an ignore file states, if any. */
  function Parse(raw: Bytes): Option<Rule> {
    var line := WithoutReturn(raw);
    if line == [] || line[0] == HASH then None
    else
      ParseBody(if line[0] == BANG then line[1..] else line, line[0] == BANG)
  }

  function ParseBody(body: Bytes, negate: bool): Option<Rule> {
    if body == [] then None
    else
      var dirOnly := body[|body| - 1] == SLASH;
      var name := if dirOnly then body[..|body| - 1] else body;
      var rooted := name != [] && name[0] == SLASH;
      var pattern := if rooted then name[1..] else name;
      if pattern == [] then None else Some(Rule(pattern, negate, dirOnly, rooted || SLASH in pattern))
  }

  /** What is left of a line after the bang: strip the marks from its ends. */
  method ReadBody(body: Bytes, negate: bool) returns (rule: Option<Rule>)
    ensures rule == ParseBody(body, negate)
    ensures rule.Some? ==> Sound(rule.value)
  {
    var line, dirOnly, anchored := body, false, false;
    if line == [] {
      return None;
    }
    if line[|line| - 1] == SLASH {
      dirOnly := true;
      line := line[..|line| - 1];
    }
    if line != [] && line[0] == SLASH {
      anchored := true;
      line := line[1..];
    }
    if SLASH in line {
      anchored := true;
    }
    if line == [] {
      return None;
    }
    rule := Some(Rule(line, negate, dirOnly, anchored));
  }

  /** The parsing of one line. */
  method ReadLine(raw: Bytes) returns (rule: Option<Rule>)
    ensures rule == Parse(raw)
    ensures rule.Some? ==> Sound(rule.value)
  {
    hide ParseBody, Sound;
    var line := raw;
    if line != [] && line[|line| - 1] == RETURN {
      line := line[..|line| - 1];
    }
    if line == [] || line[0] == HASH {
      return None;
    }
    var negate := line[0] == BANG;
    if negate {
      line := line[1..];
    }
    rule := ReadBody(line, negate);
  }

  /** A rule says something, and one matched against single segments is one segment. */
  predicate Sound(r: Rule) {
    r.pattern != [] && (!r.anchored ==> SLASH !in r.pattern)
  }

  class IgnoreList {
    var rules: seq<Rule>

    constructor ()
      ensures Valid() && rules == []
    {
      rules := [];
    }

    ghost predicate Valid()
      reads this
    {
      forall i :: 0 <= i < |rules| ==> Sound(rules[i])
    }

    method Add(raw: Bytes)
      requires Valid()
      modifies this
      ensures Valid()
      ensures rules == old(rules) + (match Parse(raw) case None => [] case Some(r) => [r])
    {
      var rule := ReadLine(raw);
      hide Parse;
      if rule.Some? {
        rules := rules + [rule.value];
      }
    }

    method Matches(path: Path, isDir: bool) returns (ignored: bool)
      ensures ignored <==> Ignores(rules, path, isDir)
    {
      ignored := false;
      for i := 0 to |rules|
        invariant ignored <==> Ignores(rules[..i], path, isDir)
      {
        var r := rules[i];
        LaterRuleWins(rules[..i], r, path, isDir);
        assert rules[..i] + [r] == rules[..i + 1];
        if r.dirOnly && !isDir {
          continue;
        }
        var covered := GlobMatch(r.pattern, path, r.anchored);
        if covered {
          ignored := !r.negate;
        }
      }
      assert rules[..|rules|] == rules;
    }
  }

  /** The rule with its pattern spelled out from the root. */
  function Rooted(r: Rule): Rule {
    if r.anchored then r else r.(pattern := AtAnyDepth(r.pattern), anchored := true)
  }

  function RootedAll(rules: seq<Rule>): seq<Rule> {
    seq(|rules|, i requires 0 <= i < |rules| => Rooted(rules[i]))
  }

  /** A lone double star that names no place. */
  predicate Lone(r: Rule) {
    !r.anchored && r.pattern == ANY_DEPTH
  }

  /** On a path it misses, the i-th rule is such a one; spelled out it would be the last to
      apply, and would change the verdict of those before it. */
  ghost predicate Overturns(rules: seq<Rule>, path: Path, isDir: bool, i: nat)
    requires i < |rules|
  {
    && Starry(path) && Lone(rules[i]) && (rules[i].dirOnly ==> isDir)
    && (forall j :: i < j < |rules| ==> !Applies(Rooted(rules[j]), path, isDir))
    && Ignores(rules[..i], path, isDir) == rules[i].negate
  }

  ghost predicate Overturned(rules: seq<Rule>, path: Path, isDir: bool) {
    exists i: nat :: i < |rules| && Overturns(rules, path, isDir, i)
  }

  lemma RootedApplies(r: Rule, path: Path, isDir: bool)
    requires Sound(r)
    ensures Applies(Rooted(r), path, isDir) <==> Applies(r, path, isDir) || (Lone(r) && Starry(path) && (r.dirOnly ==> isDir))
    ensures Lone(r) && Starry(path) ==> !Applies(r, path, isDir)
  {
    if !r.anchored {
      AnyDepthExactly(r.pattern, path);
      if r.pattern == ANY_DEPTH {
        LoneDoubleStarCovers(path);
      }
    }
    hide Covers, Starry, AtAnyDepth;
  }

  lemma OverturnedOn(rules: seq<Rule>, r: Rule, path: Path, isDir: bool)
    ensures Overturned(rules + [r], path, isDir) <==>
            Overturns(rules + [r], path, isDir, |rules|) ||
            (Overturned(rules, path, isDir) && !Applies(Rooted(r), path, isDir))
  {
    var all := rules + [r];
    hide Applies, Ignores, Rooted, Starry, Lone;
    forall i: nat | i < |rules|
      ensures Overturns(all, path, isDir, i) <==> Overturns(rules, path, isDir, i) && !Applies(Rooted(r), path, isDir)
    {
      assert all[..i] == rules[..i] && all[|rules|] == r;
      assert forall j :: i < j < |rules| ==> all[j] == rules[j];
    }
    hide Overturns;
    if Overturned(all, path, isDir) {
      var i: nat :| i < |all| && Overturns(all, path, isDir, i);
    }
    if Overturned(rules, path, isDir) && !Applies(Rooted(r), path, isDir) {
      var i: nat :| i < |rules| && Overturns(rules, path, isDir, i);
      assert Overturns(all, path, isDir, i);
    }
    if Overturns(all, path, isDir, |rules|) {
      assert |rules| < |all|;
    }
  }

  lemma {:induction false} RootedRulesIgnore(rules: seq<Rule>, path: Path, isDir: bool)
    requires forall i :: 0 <= i < |rules| ==> Sound(rules[i])
    ensures (Ignores(RootedAll(rules), path, isDir) <==> Ignores(rules, path, isDir)) <==> !Overturned(rules, path, isDir)
  {
    if rules != [] {
      var before, r := rules[..|rules| - 1], rules[|rules| - 1];
      assert rules == before + [r];
      assert RootedAll(rules) == RootedAll(before) + [Rooted(r)];
      hide *;
      RootedRulesIgnore(before, path, isDir);
      OneRuleMore(before, r, path, isDir);
    }
  }

  lemma OneRuleMore(before: seq<Rule>, r: Rule, path: Path, isDir: bool)
    requires Sound(r)
    requires (Ignores(RootedAll(before), path, isDir) <==> Ignores(before, path, isDir)) <==> !Overturned(before, path, isDir)
    ensures (Ignores(RootedAll(before) + [Rooted(r)], path, isDir) <==> Ignores(before + [r], path, isDir)) <==>
            !Overturned(before + [r], path, isDir)
  {
    LaterRuleWins(before, r, path, isDir);
    LaterRuleWins(RootedAll(before), Rooted(r), path, isDir);
    OverturnedOn(before, r, path, isDir);
    RootedApplies(r, path, isDir);
    assert (before + [r])[..|before|] == before && (before + [r])[|before|] == r;
    assert Rooted(r).negate == r.negate;
    hide Ignores, Applies, Starry, RootedAll, Overturned, Rooted, Sound, Lone;
  }

  /** In a list filled from lines, the rules that name no place are shorthand: spelled out from
      the root, every one of them, the list ignores the same paths. It does unless a lone
      double star meets a path of which it misses every name and would have had the say. */
  lemma UnanchoredIsShorthand(list: IgnoreList, path: Path, isDir: bool)
    requires list.Valid()
    ensures (Ignores(RootedAll(list.rules), path, isDir) <==> Ignores(list.rules, path, isDir)) <==>
            !Overturned(list.rules, path, isDir)
    ensures !Starry(path) || (forall i :: 0 <= i < |list.rules| ==> !Lone(list.rules[i])) ==> !Overturned(list.rules, path, isDir)
  {
    RootedRulesIgnore(list.rules, path, isDir);
    hide Ignores, Starry, RootedAll;
  }

  /** Comments and blank lines state no rule; nor do marks without a pattern. */
  lemma CommentStatesNothing(line: Bytes)
    ensures line == [] || line[0] == HASH ==> Parse(line) == None
    ensures Parse([BANG]) == Parse([SLASH]) == Parse([BANG, SLASH]) == Parse([RETURN]) == None
  {
    assert [BANG, SLASH][1..] == [SLASH] && [BANG][1..] == [] && [SLASH][..0] == [] && [RETURN][..0] == [];
  }

  /** A carriage return that ends a line is not part of it. */
  lemma ReturnIsDropped(line: Bytes)
    requires line == [] || line[|line| - 1] != RETURN
    ensures Parse(line + [RETURN]) == Parse(line)
  {
    assert (line + [RETURN])[..|line|] == line;
    hide ParseBody;
  }

  /** The rules as if none were for directories only. */
  function Unmarked(rules: seq<Rule>): seq<Rule> {
    seq(|rules|, i requires 0 <= i < |rules| => rules[i].(dirOnly := false))
  }

  /** What the mark for directories only does, whatever the patterns: nothing on a directory, and
      on a file, a list of such rules says nothing. */
  lemma {:induction false} DirectoryMarkMeans(rules: seq<Rule>, path: Path)
    ensures Ignores(rules, path, true) <==> Ignores(Unmarked(rules), path, true)
    ensures (forall i :: 0 <= i < |rules| ==> rules[i].dirOnly) ==> !Ignores(rules, path, false)
  {
    if rules != [] {
      var before, r := rules[..|rules| - 1], rules[|rules| - 1];
      DirectoryMarkMeans(before, path);
      assert rules == before + [r];
      assert Unmarked(rules) == Unmarked(before) + [r.(dirOnly := false)];
      LaterRuleWins(before, r, path, true);
      LaterRuleWins(Unmarked(before), r.(dirOnly := false), path, true);
      hide Ignores, Covers, Unmarked;
    }
  }

  /** A pattern that can be written down as it stands. */
  predicate Plain(pattern: Bytes) {
    && pattern != []
    && pattern[0] != HASH && pattern[0] != BANG && pattern[0] != SLASH
    && pattern[|pattern| - 1] != SLASH && pattern[|pattern| - 1] != RETURN
  }

  function Flag(on: bool, c: byte): Bytes {
    if on then [c] else []
  }

  function Body(pattern: Bytes, rooted: bool, dirOnly: bool): Bytes {
    Flag(rooted, SLASH) + pattern + Flag(dirOnly, SLASH)
  }

  /** The documented notation: a bang re-includes, a leading slash anchors, a trailing slash
      means directories only, and a slash inside anchors too. */
  lemma LineStatesRule(pattern: Bytes, negate: bool, rooted: bool, dirOnly: bool)
    requires Plain(pattern)
    ensures Parse(Flag(negate, BANG) + Body(pattern, rooted, dirOnly)) ==
            Some(Rule(pattern, negate, dirOnly, rooted || SLASH in pattern))
  {
    var body := Body(pattern, rooted, dirOnly);
    BodyEnds(pattern, rooted, dirOnly);
    BodyStatesRule(pattern, negate, rooted, dirOnly);
    var line := Flag(negate, BANG) + body;
    hide Body;
    if negate {
      assert line[0] == BANG && line[|line| - 1] == body[|body| - 1] && line[1..] == body;
    } else {
      assert line == body;
    }
    assert WithoutReturn(line) == line;
    hide ParseBody, WithoutReturn, Flag;
    assert Parse(line) == ParseBody(body, negate);
  }

  lemma BodyEnds(pattern: Bytes, rooted: bool, dirOnly: bool)
    requires Plain(pattern)
    ensures var body := Body(pattern, rooted, dirOnly);
            body != [] && body[0] != HASH && body[0] != BANG && body[|body| - 1] != RETURN
  {
    if rooted {
      assert Body(pattern, rooted, dirOnly)[0] == SLASH;
    }
  }

  lemma BodyStatesRule(pattern: Bytes, negate: bool, rooted: bool, dirOnly: bool)
    requires Plain(pattern)
    ensures ParseBody(Body(pattern, rooted, dirOnly), negate) ==
            Some(Rule(pattern, negate, dirOnly, rooted || SLASH in pattern))
  {
    var name := Flag(rooted, SLASH) + pattern;
    if dirOnly {
      assert (name + [SLASH])[..|name|] == name;
    } else {
      assert name + [] == name;
    }
    if rooted {
      assert name[1..] == pattern;
    } else {
      assert name == pattern;
    }
  }
}
