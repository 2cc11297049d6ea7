/** Manifests and the patches between them. */
module Manifests {
  import opened Types
  import opened Order

  /** Entries to add or overwrite, then paths to drop. */
  datatype ManifestPatch = ManifestPatch(upserts: seq<(Path, FileMeta)>, removed: seq<Path>) {
    function Size(): nat { |upserts| + |removed| }

    predicate Empty() { upserts == [] && removed == [] }
  }

  function Upsert(t: Tree, entries: seq<(Path, FileMeta)>): Tree {
    if entries == [] then t else
      Upsert(t, entries[..|entries| - 1])[entries[|entries| - 1].0 := entries[|entries| - 1].1]
  }

  function Elements(s: seq<Path>): set<Path> {
    set p | p in s
  }

  function ApplyPatch(t: Tree, patch: ManifestPatch): Tree {
    Upsert(t, patch.upserts) - Elements(patch.removed)
  }

  class Manifest {
    var entries: Tree

    constructor (t: Tree)
      ensures entries == t
    {
      entries := t;
    }

    method Apply(patch: ManifestPatch)
      modifies this
      ensures entries == ApplyPatch(old(entries), patch)
    {
      for i := 0 to |patch.upserts|
        invariant entries == Upsert(old(entries), patch.upserts[..i])
      {
        assert patch.upserts[..i + 1][..i] == patch.upserts[..i];
        entries := entries[patch.upserts[i].0 := patch.upserts[i].1];
      }
      assert patch.upserts[..|patch.upserts|] == patch.upserts;
      ghost var upserted := entries;
      for i := 0 to |patch.removed|
        invariant entries == upserted - Elements(patch.removed[..i])
      {
        entries := entries - {patch.removed[i]};
        assert patch.removed[..i + 1] == patch.removed[..i] + [patch.removed[i]];
        assert Elements(patch.removed[..i + 1]) == Elements(patch.removed[..i]) + {patch.removed[i]};
      }
      assert patch.removed[..|patch.removed|] == patch.removed;
    }
  }

  function Keys(entries: seq<(Path, FileMeta)>): seq<Path> {
    seq(|entries|, i requires 0 <= i < |entries| => entries[i].0)
  }

  /** Entries with distinct keys overwrite independently of their order. */
  lemma {:induction false} UpsertFinds(t: Tree, entries: seq<(Path, FileMeta)>, p: Path)
    requires Sorted(Keys(entries))
    ensures p !in Keys(entries) ==> Find(Upsert(t, entries), p) == Find(t, p)
    ensures forall i :: 0 <= i < |entries| && entries[i].0 == p ==> Find(Upsert(t, entries), p) == Some(entries[i].1)
  {
    if entries != [] {
      var n := |entries| - 1;
      var before := entries[..n];
      var keys := Keys(entries);
      assert keys == Keys(before) + [entries[n].0];
      assert forall i :: 0 <= i < n ==> Keys(before)[i] == keys[i];
      SortedHasNoDuplicates(keys);
      assert Sorted(Keys(before));
      hide Sorted;
      UpsertFinds(t, before, p);
      assert forall i :: 0 <= i < n && entries[i].0 == p ==> before[i].0 == p && keys[i] == p;
      assert keys[n] == entries[n].0;
    }
  }

  lemma ApplyFinds(t: Tree, patch: ManifestPatch, p: Path)
    requires Sorted(Keys(patch.upserts))
    ensures p in patch.removed ==> Find(ApplyPatch(t, patch), p) == None
    ensures p !in patch.removed && p !in Keys(patch.upserts) ==> Find(ApplyPatch(t, patch), p) == Find(t, p)
    ensures forall i :: 0 <= i < |patch.upserts| && patch.upserts[i].0 == p && p !in patch.removed ==>
              Find(ApplyPatch(t, patch), p) == Some(patch.upserts[i].1)
  {
    UpsertFinds(t, patch.upserts, p);
  }

  lemma {:induction false} LastUpsertWins(t: Tree, entries: seq<(Path, FileMeta)>, p: Path, i: nat)
    requires i < |entries| && entries[i].0 == p && forall j :: i < j < |entries| ==> entries[j].0 != p
    ensures Find(Upsert(t, entries), p) == Some(entries[i].1)
  {
    var n := |entries| - 1;
    if i < n {
      LastUpsertWins(t, entries[..n], p, i);
    }
  }

  /** What any patch makes of a path, one from a peer and in no order included: removing it has
      the last word, then the last entry for it. */
  lemma PatchDecides(t: Tree, patch: ManifestPatch, p: Path)
    ensures p in patch.removed ==> p !in ApplyPatch(t, patch)
    ensures p !in patch.removed && p !in Keys(patch.upserts) ==> Find(ApplyPatch(t, patch), p) == Find(t, p)
    ensures forall i :: 0 <= i < |patch.upserts| && patch.upserts[i].0 == p && p !in patch.removed &&
                        (forall j :: i < j < |patch.upserts| ==> patch.upserts[j].0 != p) ==>
              Find(ApplyPatch(t, patch), p) == Some(patch.upserts[i].1)
  {
    forall i | 0 <= i < |patch.upserts| && patch.upserts[i].0 == p &&
               forall j :: i < j < |patch.upserts| ==> patch.upserts[j].0 != p
      ensures Find(Upsert(t, patch.upserts), p) == Some(patch.upserts[i].1)
    {
      LastUpsertWins(t, patch.upserts, p, i);
    }
    UnnamedIsUnchanged(t, patch.upserts, p);
    hide Upsert;
  }

  // ----- The difference between two manifests -----------------------------------

  predicate Differ(from: Tree, to: Tree, p: Path) {
    Find(from, p) != Find(to, p)
  }

  /** patch is the difference as far as the listed paths of both trees go: each
      differing one once and in order, and nothing else. */
  ghost predicate DiffUpTo(from: Tree, to: Tree, patch: ManifestPatch, fromKeys: seq<Path>, toKeys: seq<Path>) {
    && Sorted(Keys(patch.upserts)) && Sorted(patch.removed)
    && (forall p :: p in patch.removed <==> p in fromKeys && p !in to)
    && (forall p :: p in Keys(patch.upserts) <==> p in toKeys && Differ(from, to, p))
    && (forall i :: 0 <= i < |patch.upserts| ==> Find(to, patch.upserts[i].0) == Some(patch.upserts[i].1))
  }

  ghost predicate IsDiff(from: Tree, to: Tree, patch: ManifestPatch) {
    DiffUpTo(from, to, patch, Listing(from.Keys), Listing(to.Keys))
  }

  ghost predicate AllBelow(xs: seq<Path>, ys: seq<Path>) {
    forall x, y :: x in xs && y in ys ==> Less(x, y)
  }

  /** The merge walk has consumed a[..i] and b[..j]. */
  ghost predicate Walked(from: Tree, to: Tree, a: seq<Path>, b: seq<Path>, i: nat, j: nat, patch: ManifestPatch) {
    && i <= |a| && j <= |b|
    && Sorted(a) && Sorted(b)
    && (forall p :: p in a <==> p in from) && (forall p :: p in b <==> p in to)
    && AllBelow(a[..i], b[j..]) && AllBelow(b[..j], a[i..])
    && DiffUpTo(from, to, patch, a[..i], b[..j])
  }

  lemma SortedSplit(s: seq<Path>, i: nat)
    requires Sorted(s) && i < |s|
    ensures AllBelow(s[..i], [s[i]]) && AllBelow([s[i]], s[i + 1..])
  {
  }

  lemma BelowAll(p: Path, ys: seq<Path>)
    requires Sorted(ys) && (ys != [] ==> Less(p, ys[0]))
    ensures AllBelow([p], ys)
  {
    forall y | y in ys
      ensures Less(p, y)
    {
      var k :| 0 <= k < |ys| && ys[k] == y;
      if k > 0 {
        LessIsTransitive(p, ys[0], y);
      }
    }
  }

  /** A path below everything left of one listing is not listed there at all. */
  lemma NotListed(p: Path, s: seq<Path>, k: nat, rest: seq<Path>)
    requires k <= |s| && AllBelow(s[..k], [p] + rest) && AllBelow([p], s[k..])
    ensures p !in s
  {
    LessIsAsymmetric(p, p);
    assert s == s[..k] + s[k..];
    assert p in [p] + rest && p in [p];
  }

  lemma ExtendPatch(keys: seq<Path>, bs: seq<Path>, p: Path)
    requires Sorted(keys) && (forall q :: q in keys ==> q in bs) && AllBelow(bs, [p])
    ensures Sorted(keys + [p])
  {
    if keys != [] {
      assert keys[|keys| - 1] in bs && p in [p];
    }
    SortedAppend(keys, p);
  }

  lemma WalkRemoved(from: Tree, to: Tree, a: seq<Path>, b: seq<Path>, i: nat, j: nat, patch: ManifestPatch)
    requires Walked(from, to, a, b, i, j, patch) && i < |a| && (j == |b| || Less(a[i], b[j]))
    ensures Walked(from, to, a, b, i + 1, j, patch.(removed := patch.removed + [a[i]]))
  {
    hide Less;
    SortedSplit(a, i);
    BelowAll(a[i], b[j..]);
    NotListed(a[i], b, j, a[i + 1..]);
    ExtendPatch(patch.removed, a[..i], a[i]);
  }

  lemma WalkAdded(from: Tree, to: Tree, a: seq<Path>, b: seq<Path>, i: nat, j: nat, patch: ManifestPatch)
    requires Walked(from, to, a, b, i, j, patch) && j < |b| && (i == |a| || Less(b[j], a[i]))
    ensures Walked(from, to, a, b, i, j + 1, patch.(upserts := patch.upserts + [(b[j], to[b[j]])]))
  {
    hide Less;
    SortedSplit(b, j);
    BelowAll(b[j], a[i..]);
    NotListed(b[j], a, i, b[j + 1..]);
    ExtendPatch(Keys(patch.upserts), b[..j], b[j]);
    assert Keys(patch.upserts + [(b[j], to[b[j]])]) == Keys(patch.upserts) + [b[j]];
  }

  lemma WalkBoth(from: Tree, to: Tree, a: seq<Path>, b: seq<Path>, i: nat, j: nat, patch: ManifestPatch)
    requires Walked(from, to, a, b, i, j, patch) && i < |a| && j < |b| && a[i] == b[j]
    ensures Walked(from, to, a, b, i + 1, j + 1,
                   if from[a[i]] != to[b[j]] then patch.(upserts := patch.upserts + [(b[j], to[b[j]])]) else patch)
  {
    hide Less, Sorted;
    SortedSplit(a, i);
    SortedSplit(b, j);
    ExtendPatch(Keys(patch.upserts), b[..j], b[j]);
    assert Keys(patch.upserts + [(b[j], to[b[j]])]) == Keys(patch.upserts) + [b[j]];
  }

  method DiffManifests(from: Tree, to: Tree) returns (patch: ManifestPatch)
    ensures IsDiff(from, to, patch)
  {
    var a, b := Listing(from.Keys), Listing(to.Keys);
    var i, j := 0, 0;
    patch := ManifestPatch([], []);
    assert Walked(from, to, a, b, 0, 0, patch);
    while i < |a| || j < |b|
      invariant 0 <= i <= |a| && 0 <= j <= |b|
      invariant Walked(from, to, a, b, i, j, patch)
      decreases |a| - i + |b| - j
    {
      assert (i < |a| ==> a[i] in a) && (j < |b| ==> b[j] in b);
      if j == |b| || (i < |a| && Less(a[i], b[j])) {
        WalkRemoved(from, to, a, b, i, j, patch);
        patch := patch.(removed := patch.removed + [a[i]]);
        i := i + 1;
      } else if i == |a| || Less(b[j], a[i]) {
        WalkAdded(from, to, a, b, i, j, patch);
        patch := patch.(upserts := patch.upserts + [(b[j], to[b[j]])]);
        j := j + 1;
      } else {
        LessIsTotal(a[i], b[j]);
        WalkBoth(from, to, a, b, i, j, patch);
        if from[a[i]] != to[b[j]] {
          patch := patch.(upserts := patch.upserts + [(b[j], to[b[j]])]);
        }
        i, j := i + 1, j + 1;
      }
    }
    assert a[..|a|] == a && b[..|b|] == b;
  }

  // ----- What the difference is good for ----------------------------------------

  /** Applied to any tree, the difference carries over exactly what changed between its
      endpoints and leaves everything else as it is there. */
  lemma DiffCarriesChanges(from: Tree, to: Tree, patch: ManifestPatch, t: Tree, p: Path)
    requires IsDiff(from, to, patch)
    ensures Find(ApplyPatch(t, patch), p) == if Differ(from, to, p) then Find(to, p) else Find(t, p)
  {
    ApplyFinds(t, patch, p);
    if p in Keys(patch.upserts) {
      var i :| 0 <= i < |patch.upserts| && Keys(patch.upserts)[i] == p;
      assert patch.upserts[i].0 == p;
    }
  }

  lemma SameTree(t: Tree, u: Tree)
    requires forall p :: Find(t, p) == Find(u, p)
    ensures t == u
  {
    forall p
      ensures p in t <==> p in u
      ensures p in t ==> t[p] == u[p]
    {
      assert Find(t, p) == Find(u, p);
    }
  }

  /** Exact: applying it to the first endpoint gives the second. */
  lemma DiffIsExact(from: Tree, to: Tree, patch: ManifestPatch)
    requires IsDiff(from, to, patch)
    ensures ApplyPatch(from, patch) == to
  {
    forall p
      ensures Find(ApplyPatch(from, patch), p) == Find(to, p)
    {
      DiffCarriesChanges(from, to, patch, from, p);
    }
    SameTree(ApplyPatch(from, patch), to);
  }

  ghost function Differing(from: Tree, to: Tree): set<Path> {
    set p | p in from.Keys + to.Keys && Differ(from, to, p)
  }

  lemma {:induction false} ElementsCount(s: seq<Path>)
    ensures |Elements(s)| <= |s|
    ensures Sorted(s) ==> |Elements(s)| == |s|
  {
    if s != [] {
      var before, p := s[..|s| - 1], s[|s| - 1];
      assert s == before + [p];
      assert Elements(s) == Elements(before) + {p};
      ElementsCount(before);
      if Sorted(s) {
        SortedHasNoDuplicates(s);
      }
    }
  }

  /** Minimal: it names each differing path once, and no patch at all with the same
      effect is smaller. */
  lemma DiffIsMinimal(from: Tree, to: Tree, patch: ManifestPatch, other: ManifestPatch)
    requires IsDiff(from, to, patch)
    ensures patch.Size() == |Differing(from, to)|
    ensures patch.Empty() <==> from == to
    ensures ApplyPatch(from, other) == to ==> patch.Size() <= other.Size()
  {
    hide Sorted, Upsert;
    DiffNamesDiffering(from, to, patch);
    if patch.Empty() {
      forall p
        ensures Find(from, p) == Find(to, p)
      {
        assert p !in Differing(from, to);
      }
      SameTree(from, to);
    }
    if ApplyPatch(from, other) == to {
      forall p | p in Differing(from, to)
        ensures p in Elements(Keys(other.upserts)) + Elements(other.removed)
      {
        UnnamedIsUnchanged(from, other.upserts, p);
      }
      ElementsCount(Keys(other.upserts));
      ElementsCount(other.removed);
      SubsetSize(Differing(from, to), Elements(Keys(other.upserts)) + Elements(other.removed));
    }
  }

  lemma DiffNamesDiffering(from: Tree, to: Tree, patch: ManifestPatch)
    requires IsDiff(from, to, patch)
    ensures patch.Size() == |Differing(from, to)|
    ensures from == to ==> Differing(from, to) == {}
  {
    var ups, dels := Elements(Keys(patch.upserts)), Elements(patch.removed);
    ElementsCount(Keys(patch.upserts));
    ElementsCount(patch.removed);
    assert ups !! dels && ups + dels == Differing(from, to);
    assert |ups + dels| == |ups| + |dels|;
  }

  lemma {:induction false} UnnamedIsUnchanged(t: Tree, entries: seq<(Path, FileMeta)>, p: Path)
    ensures p !in Keys(entries) ==> Find(Upsert(t, entries), p) == Find(t, p)
  {
    if entries != [] {
      var n := |entries| - 1;
      assert Keys(entries) == Keys(entries[..n]) + [entries[n].0];
      UnnamedIsUnchanged(t, entries[..n], p);
    }
  }

  lemma {:induction false} SubsetSize(x: set<Path>, y: set<Path>)
    requires x <= y
    ensures |x| <= |y|
  {
    if x != {} {
      var p :| p in x;
      SubsetSize(x - {p}, y - {p});
    }
  }

  /** The rescan step, folding in a scan's findings after a session has stored p or removed it
      while the scan was running. Exactly when the session's change survives, as if it had
      been made afterwards: the scan saw no change at p, or found there what the session put
      there. Otherwise the scan's finding takes its place. */
  lemma RescanKeepsExactly(before: Tree, scanned: Tree, patch: ManifestPatch, p: Path, m: FileMeta)
    requires IsDiff(before, scanned, patch)
    ensures ApplyPatch(before[p := m], patch) == scanned[p := m] <==>
            !Differ(before, scanned, p) || Find(scanned, p) == Some(m)
    ensures ApplyPatch(before - {p}, patch) == scanned - {p} <==> !Differ(before, scanned, p) || p !in scanned
    ensures Differ(before, scanned, p) ==> ApplyPatch(before[p := m], patch) == ApplyPatch(before - {p}, patch) == scanned
  {
    RescanFolds(before, scanned, patch, before[p := m], p);
    RescanFolds(before, scanned, patch, before - {p}, p);
    ChangingNothing(scanned, p, m);
    assert before[p := m][p] == m && p in before[p := m] && p !in before - {p};
    hide *;
  }

  lemma ChangingNothing(t: Tree, p: Path, m: FileMeta)
    ensures t[p := m] == t <==> Find(t, p) == Some(m)
    ensures t - {p} == t <==> p !in t
  {
    assert t[p := m][p] == m;
  }

  lemma RescanFolds(before: Tree, scanned: Tree, patch: ManifestPatch, now: Tree, p: Path)
    requires IsDiff(before, scanned, patch) && forall q :: q != p ==> Find(now, q) == Find(before, q)
    ensures ApplyPatch(now, patch) ==
            if Differ(before, scanned, p) then scanned else if p in now then scanned[p := now[p]] else scanned - {p}
  {
    var folded := if Differ(before, scanned, p) then scanned else if p in now then scanned[p := now[p]] else scanned - {p};
    forall q
      ensures Find(ApplyPatch(now, patch), q) == Find(folded, q)
    {
      DiffCarriesChanges(before, scanned, patch, now, q);
      hide IsDiff, ApplyPatch;
    }
    SameTree(ApplyPatch(now, patch), folded);
  }

  /** A file deleted before the scan looked and pulled again before the scan is folded in: it
      is on disk, and the manifest has no entry for it. */
  lemma RescanDropsLandedFile(before: Tree, patch: ManifestPatch, p: Path, m: FileMeta)
    requires p in before && IsDiff(before, before - {p}, patch)
    ensures patch == ManifestPatch([], [p])
    ensures ApplyPatch(before[p := m], patch) == before - {p}
  {
    RescanKeepsExactly(before, before - {p}, patch, p, m);
    OnlyOneDropped(before, patch, p);
  }

  lemma HeadIsIn(ps: seq<Path>)
    ensures ps != [] ==> ps[0] in ps
  {
  }

  lemma OnlyOneDropped(before: Tree, patch: ManifestPatch, p: Path)
    requires p in before && IsDiff(before, before - {p}, patch)
    ensures patch == ManifestPatch([], [p])
  {
    HeadIsIn(Keys(patch.upserts));
    assert forall q :: q in patch.removed <==> q in [p];
    SortedIsUnique(patch.removed, [p]);
  }
}
