/** The scanner: an explicit-stack walk over directories joined by links, refusing a link
    back into the chain of directories it came through, with a hash cache. */
module Scan {
  import opened Types
  import opened Order

  type Name = Bytes

  /** A directory's identity: its path with every link resolved. */
  type Key = seq<Name>

  /** A path relative to the scanned root, as its names. */
  type Rel = seq<Name>

  const DOT: Name := [46]
  const DOT_DOT: Name := [46, 46]

  /** A regular file: what a stat tells, the hash of what it holds, and whether it can be
      read to be hashed. */
  datatype FileInfo = FileInfo(size: u64, mtime: i64, mode: u32, content: Hash, readable: bool)

  /** What is behind a link; resolved is None when its path cannot be resolved. */
  datatype Target = Broken | ToFile(info: FileInfo) | ToDir(resolved: Option<Key>)

  /** An entry as listed; systems differ in whether they list a link as a directory. */
  datatype Node = File(info: FileInfo) | Dir | Link(asDir: bool, target: Target)

  /** The readable directories by identity, and how the scanner was set up. */
  datatype World = World(fs: map<Key, map<Name, Node>>, follow: bool, ignored: (Rel, bool) -> bool)

  /** The directories a walk came through, kept only when links are followed. */
  datatype Chain = Nothing | Extend(key: Key, parent: Chain)

  function Keys(c: Chain): set<Key> {
    match c case Nothing => {} case Extend(k, parent) => {k} + Keys(parent)
  }

  method OnPath(c: Chain, candidate: Key) returns (found: bool)
    ensures found <==> candidate in Keys(c)
  {
    var n := c;
    while n.Extend?
      invariant candidate in Keys(c) <==> candidate in Keys(n)
      decreases n
    {
      if n.key == candidate {
        return true;
      }
      n := n.parent;
    }
    found := false;
  }

  /** A directory still to be listed: how it was reached, which one it is, and the chain. */
  datatype Item = Item(rel: Rel, dir: Key, chain: Chain)

  function Start(w: World, root: Key): Item {
    Item([], root, if w.follow then Extend(root, Nothing) else Nothing)
  }

  predicate Listed(w: World, it: Item, name: Name) {
    it.dir in w.fs && name in w.fs[it.dir] && name != DOT && name != DOT_DOT
  }

  /** The directory a walk may enter through an entry. */
  function Child(w: World, it: Item, name: Name): Option<Item> {
    if !Listed(w, it, name) || w.ignored(it.rel + [name], true) then None
    else
      match w.fs[it.dir][name]
      case Dir =>
        var key := it.dir + [name];
        Some(Item(it.rel + [name], key, if w.follow then Extend(key, it.chain) else it.chain))
      case Link(true, ToDir(Some(key))) =>
        if w.follow && key !in Keys(it.chain) then Some(Item(it.rel + [name], key, Extend(key, it.chain))) else None
      case _ => None
  }

  /** The file an entry stands for. */
  function FileAt(w: World, it: Item, name: Name): Option<FileInfo> {
    if !Listed(w, it, name) || w.ignored(it.rel + [name], false) then None
    else
      match w.fs[it.dir][name]
      case File(info) => Some(info)
      case Link(false, ToFile(info)) => if w.follow then Some(info) else None
      case _ => None
  }

  // ----- What a scan should find ------------------------------------------------

  /** The file a path leads to, on a walk that never follows a link to a directory already
      on its chain and never passes anything ignored. */
  function Look(w: World, it: Item, names: Rel): Option<FileInfo>
    decreases |names|
  {
    if names == [] then None
    else if |names| == 1 then FileAt(w, it, names[0])
    else match Child(w, it, names[0]) case None => None case Some(c) => Look(w, c, names[1..])
  }

  /** A cached hash stands when size and mtime are unchanged. */
  predicate Cached(previous: map<Rel, FileMeta>, r: Rel, info: FileInfo) {
    r in previous && previous[r].size == info.size && previous[r].mtime == info.mtime
  }

  function Meta(previous: map<Rel, FileMeta>, r: Rel, info: FileInfo): Option<FileMeta> {
    if Cached(previous, r, info) then Some(FileMeta(info.size, info.mtime, info.mode, previous[r].hash))
    else if info.readable then Some(FileMeta(info.size, info.mtime, info.mode, info.content))
    else None
  }

  function Expected(w: World, previous: map<Rel, FileMeta>, start: Item, r: Rel): Option<FileMeta> {
    match Look(w, start, r) case None => None case Some(info) => Meta(previous, r, info)
  }

  function Lookup<V>(m: map<Rel, V>, r: Rel): Option<V> {
    if r in m then Some(m[r]) else None
  }

  // ----- Why the walk ends ------------------------------------------------------

  /** The readable directories not yet on the chain. */
  ghost function Unseen(w: World, it: Item): set<Key> {
    w.fs.Keys - Keys(it.chain)
  }

  /** The readable directories below this one. */
  ghost function Inside(w: World, it: Item): set<Key> {
    set k | k in w.fs.Keys && it.dir < k
  }

  /** Entering a readable directory leaves fewer directories off the chain or, when an
      ordinary subdirectory was on it already, fewer directories below. */
  lemma ChildIsSmaller(w: World, it: Item, name: Name)
    requires Child(w, it, name).Some? && Child(w, it, name).value.dir in w.fs
    ensures var c := Child(w, it, name).value;
            Unseen(w, c) < Unseen(w, it) || (Unseen(w, c) == Unseen(w, it) && Inside(w, c) < Inside(w, it))
  {
    var c := Child(w, it, name).value;
    assert Unseen(w, c) <= Unseen(w, it);
    if Unseen(w, c) == Unseen(w, it) {
      assert c.dir == it.dir + [name] by {
        assert w.fs[it.dir][name].Link? ==> c.dir in Unseen(w, it) && c.dir !in Unseen(w, c);
      }
      assert c.dir in Inside(w, it) && c.dir !in Inside(w, c);
      assert Inside(w, c) <= Inside(w, it);
    }
  }

  /** How many directories are listed, at most, through these entries of a directory. */
  ghost function Cost(w: World, it: Item, names: seq<Name>): nat
    decreases Unseen(w, it), Inside(w, it), |names|
  {
    if names == [] then 0
    else
      Cost(w, it, names[1..]) +
      match Child(w, it, names[0])
      case None => 0
      case Some(c) =>
        if c.dir in w.fs then ChildIsSmaller(w, it, names[0]); 1 + Cost(w, c, Entries(w, c)) else 1
  }

  function Entries(w: World, it: Item): seq<Name> {
    if it.dir in w.fs then Listing(w.fs[it.dir].Keys) else []
  }

  ghost function ItemCost(w: World, it: Item): nat {
    1 + Cost(w, it, Entries(w, it))
  }

  ghost function StackCost(w: World, pending: seq<Item>): nat {
    if pending == [] then 0 else StackCost(w, pending[..|pending| - 1]) + ItemCost(w, pending[|pending| - 1])
  }

  lemma PushCost(w: World, pending: seq<Item>, it: Item)
    ensures StackCost(w, pending + [it]) == StackCost(w, pending) + ItemCost(w, it)
  {
    assert (pending + [it])[..|pending|] == pending;
  }

  lemma CostStep(w: World, it: Item, names: seq<Name>)
    requires names != []
    ensures Cost(w, it, names) == Cost(w, it, names[1..]) + StackCost(w, Pushed(w, it, names[0]))
  {
    PushCost(w, [], if Child(w, it, names[0]).Some? then Child(w, it, names[0]).value else it);
  }

  // ----- What a partly done walk has found --------------------------------------

  function Pushed(w: World, it: Item, name: Name): seq<Item> {
    match Child(w, it, name) case None => [] case Some(c) => [c]
  }

  function Stored(w: World, previous: map<Rel, FileMeta>, it: Item, name: Name, out: map<Rel, FileMeta>): map<Rel, FileMeta> {
    match FileAt(w, it, name)
    case None => out
    case Some(info) =>
      match Meta(previous, it.rel + [name], info) case None => out case Some(m) => out[it.rel + [name] := m]
  }

  /** Neither path lies on the way to the other. */
  predicate Diverge(a: Rel, b: Rel) {
    !(a <= b) && !(b <= a)
  }

  /** What lies below an item is what the start sees there. */
  ghost predicate Genuine(w: World, start: Item, it: Item) {
    forall t: Rel :: t != [] ==> Look(w, start, it.rel + t) == Look(w, it, t)
  }

  predicate Distinct(names: seq<Name>) {
    forall i, j :: 0 <= i < j < |names| ==> names[i] != names[j]
  }

  /** The stack, and the directory being listed with the entries it has left. */
  ghost predicate Placed(w: World, start: Item, pending: seq<Item>, it: Item, names: seq<Name>) {
    && Genuine(w, start, it) && Distinct(names)
    && (forall i :: 0 <= i < |pending| ==> Genuine(w, start, pending[i]))
    && (forall i, j :: 0 <= i < j < |pending| ==> Diverge(pending[i].rel, pending[j].rel))
    && (forall i, k :: 0 <= i < |pending| && 0 <= k < |names| ==> Diverge(pending[i].rel, it.rel + [names[k]]))
  }

  ghost predicate Awaited(pending: seq<Item>, r: Rel) {
    exists i :: 0 <= i < |pending| && pending[i].rel < r
  }

  ghost predicate Below(it: Item, names: seq<Name>, r: Rel) {
    it.rel < r && r[|it.rel|] in names
  }

  /** Whatever no pending item leads to is found already, and nothing else is. */
  ghost predicate Settled(w: World, previous: map<Rel, FileMeta>, start: Item, pending: seq<Item>, it: Item,
                          names: seq<Name>, out: map<Rel, FileMeta>)
  {
    forall r :: Lookup(out, r) ==
      if Awaited(pending, r) || Below(it, names, r) then None else Expected(w, previous, start, r)
  }

  lemma ChildIsGenuine(w: World, start: Item, it: Item, name: Name)
    requires Genuine(w, start, it) && Child(w, it, name).Some?
    ensures Genuine(w, start, Child(w, it, name).value)
  {
    var c := Child(w, it, name).value;
    forall t: Rel | t != []
      ensures Look(w, start, c.rel + t) == Look(w, c, t)
    {
      assert c.rel + t == it.rel + ([name] + t);
      assert ([name] + t)[1..] == t;
      assert Look(w, it, [name] + t) == Look(w, c, t);
    }
  }

  /** What the start sees at and below one entry of a directory. */
  lemma EntryDecides(w: World, start: Item, it: Item, name: Name, r: Rel)
    requires Genuine(w, start, it) && it.rel + [name] <= r
    ensures r == it.rel + [name] ==> Look(w, start, r) == FileAt(w, it, name)
    ensures it.rel + [name] < r && Child(w, it, name).None? ==> Look(w, start, r) == None
  {
    var t := r[|it.rel|..];
    assert r == it.rel + t;
    assert t[0] == (it.rel + [name])[|it.rel|];
    assert Look(w, start, it.rel + t) == Look(w, it, t);
  }

  lemma BelowSplits(it: Item, names: seq<Name>, r: Rel)
    requires names != []
    ensures Below(it, names, r) <==> it.rel + [names[0]] <= r || Below(it, names[1..], r)
  {
    if it.rel < r {
      assert r[..|it.rel|] == it.rel;
      assert r[|it.rel|] in names <==> r[|it.rel|] == names[0] || r[|it.rel|] in names[1..];
    }
  }

  lemma PushAwaits(pending: seq<Item>, more: seq<Item>, r: Rel)
    requires |more| <= 1
    ensures Awaited(pending + more, r) <==> Awaited(pending, r) || (more != [] && more[0].rel < r)
  {
    if Awaited(pending, r) {
      var i :| 0 <= i < |pending| && pending[i].rel < r;
      assert (pending + more)[i].rel < r;
    }
    if more != [] && more[0].rel < r {
      assert (pending + more)[|pending|].rel < r;
    }
  }

  lemma VisitKeepsPlaces(w: World, start: Item, pending: seq<Item>, it: Item, names: seq<Name>)
    requires Placed(w, start, pending, it, names) && names != []
    ensures Placed(w, start, pending + Pushed(w, it, names[0]), it, names[1..])
  {
    var name := names[0];
    if Child(w, it, name).Some? {
      ChildIsGenuine(w, start, it, name);
      var c := Child(w, it, name).value;
      forall k | 0 <= k < |names[1..]|
        ensures Diverge(c.rel, it.rel + [names[1..][k]])
      {
        assert c.rel[|it.rel|] == name;
        assert (it.rel + [names[1..][k]])[|it.rel|] == names[k + 1];
      }
    }
    hide Genuine, Child;
  }

  /** One entry handled: its subtree is pushed, or its file stored, and all else stands. */
  lemma VisitKeepsSettled(w: World, previous: map<Rel, FileMeta>, start: Item, pending: seq<Item>, it: Item,
                          names: seq<Name>, out: map<Rel, FileMeta>)
    requires Placed(w, start, pending, it, names) && names != []
    requires Settled(w, previous, start, pending, it, names, out)
    ensures Settled(w, previous, start, pending + Pushed(w, it, names[0]), it, names[1..], Stored(w, previous, it, names[0], out))
    ensures it.rel + [names[0]] !in out
  {
    var name := names[0];
    var here := it.rel + [name];
    BelowSplits(it, names, here);
    assert Lookup(out, here).None?;
    forall r
      ensures Lookup(Stored(w, previous, it, name, out), r) ==
        if Awaited(pending + Pushed(w, it, name), r) || Below(it, names[1..], r) then None else Expected(w, previous, start, r)
    {
      BelowSplits(it, names, r);
      PushAwaits(pending, Pushed(w, it, name), r);
      if here <= r {
        EntryDecides(w, start, it, name, r);
        NotBelowOthers(names, it, r);
        NotAwaitedByOthers(pending, it, names, r);
        assert Lookup(out, r).None?;
        if r == here {
          assert Lookup(Stored(w, previous, it, name, out), r) == Expected(w, previous, start, r);
        }
      }
    }
  }

  lemma NotBelowOthers(names: seq<Name>, it: Item, r: Rel)
    requires names != [] && Distinct(names) && it.rel + [names[0]] <= r
    ensures !Below(it, names[1..], r)
  {
    assert r[|it.rel|] == (it.rel + [names[0]])[|it.rel|];
  }

  lemma NotAwaitedByOthers(pending: seq<Item>, it: Item, names: seq<Name>, r: Rel)
    requires names != [] && it.rel + [names[0]] <= r
    requires forall i, k :: 0 <= i < |pending| && 0 <= k < |names| ==> Diverge(pending[i].rel, it.rel + [names[k]])
    ensures !Awaited(pending, r)
  {
    forall i | 0 <= i < |pending|
      ensures !(pending[i].rel < r)
    {
      assert Diverge(pending[i].rel, it.rel + [names[0]]);
    }
  }

  /** Popping an item and starting to list it changes nothing about what is awaited. */
  lemma PopKeeps(w: World, previous: map<Rel, FileMeta>, start: Item, pending: seq<Item>, out: map<Rel, FileMeta>)
    requires pending != [] && Placed(w, start, pending, start, []) && Settled(w, previous, start, pending, start, [], out)
    ensures var it, rest := pending[|pending| - 1], pending[..|pending| - 1];
            Placed(w, start, rest, it, Entries(w, it)) && Settled(w, previous, start, rest, it, Entries(w, it), out)
  {
    var it, rest := pending[|pending| - 1], pending[..|pending| - 1];
    var names := Entries(w, it);
    if it.dir in w.fs {
      SortedHasNoDuplicates(names);
    }
    forall i, k | 0 <= i < |rest| && 0 <= k < |names|
      ensures Diverge(rest[i].rel, it.rel + [names[k]])
    {
      OneDeeper(rest[i].rel, it.rel, names[k]);
    }
    assert pending == rest + [it];
    forall r
      ensures Lookup(out, r) ==
        if Awaited(rest, r) || Below(it, names, r) then None else Expected(w, previous, start, r)
    {
      PushAwaits(rest, [it], r);
      if it.rel < r && !Below(it, names, r) {
        UnlistedIsNone(w, start, it, r);
      }
    }
  }

  lemma OneDeeper(a: Rel, b: Rel, n: Name)
    requires Diverge(a, b)
    ensures Diverge(a, b + [n])
  {
  }

  /** A name a directory does not list leads nowhere. */
  lemma UnlistedIsNone(w: World, start: Item, it: Item, r: Rel)
    requires Genuine(w, start, it) && it.rel < r && !Below(it, Entries(w, it), r)
    ensures Look(w, start, r) == None
  {
    var here := it.rel + [r[|it.rel|]];
    assert here <= r;
    EntryDecides(w, start, it, r[|it.rel|], r);
    assert r != here ==> here < r;
  }

  /** Paths whose hash was computed, not reused. */
  ghost function Hashed(previous: map<Rel, FileMeta>, out: map<Rel, FileMeta>): set<Rel> {
    set r | r in out && !(r in previous && previous[r].size == out[r].size && previous[r].mtime == out[r].mtime)
  }

  lemma StoredHashes(w: World, previous: map<Rel, FileMeta>, it: Item, name: Name, out: map<Rel, FileMeta>)
    requires it.rel + [name] !in out
    ensures |Hashed(previous, Stored(w, previous, it, name, out))| ==
            |Hashed(previous, out)| +
            (if FileAt(w, it, name).Some? && FileAt(w, it, name).value.readable &&
                !Cached(previous, it.rel + [name], FileAt(w, it, name).value) then 1 else 0)
  {
    var r := it.rel + [name];
    var after := Stored(w, previous, it, name, out);
    if FileAt(w, it, name).Some? && Meta(previous, r, FileAt(w, it, name).value).Some? {
      if Cached(previous, r, FileAt(w, it, name).value) {
        assert Hashed(previous, after) == Hashed(previous, out);
      } else {
        assert Hashed(previous, after) == Hashed(previous, out) + {r};
      }
    }
  }

  // ----- The scan ---------------------------------------------------------------

  /** The body of the inner loop: one entry of the directory being listed. */
  method Visit(w: World, previous: map<Rel, FileMeta>, it: Item, name: Name,
               pending: seq<Item>, out: map<Rel, FileMeta>, filesHashed: nat)
    returns (pending': seq<Item>, out': map<Rel, FileMeta>, filesHashed': nat)
    requires it.dir in w.fs && name in w.fs[it.dir]
    ensures pending' == pending + Pushed(w, it, name)
    ensures out' == Stored(w, previous, it, name, out)
    ensures it.rel + [name] !in out ==> filesHashed' - filesHashed == |Hashed(previous, out')| - |Hashed(previous, out)|
  {
    pending', out', filesHashed' := pending, out, filesHashed;
    if name == DOT || name == DOT_DOT {
      return;
    }
    var rel := it.rel + [name];
    if rel !in out {
      StoredHashes(w, previous, it, name, out);
    }
    var node := w.fs[it.dir][name];
    if node.Dir? || (node.Link? && node.asDir) {
      if w.ignored(rel, true) {
        return;
      }
      if node.Dir? {
        pending' := pending + [Item(rel, it.dir + [name], if w.follow then Extend(it.dir + [name], it.chain) else it.chain)];
        return;
      }
      if !w.follow || !node.target.ToDir? || node.target.resolved.None? {
        return;
      }
      var key := node.target.resolved.value;
      var closes := OnPath(it.chain, key);
      if closes {
        return;
      }
      pending' := pending + [Item(rel, key, Extend(key, it.chain))];
      return;
    }
    if w.ignored(rel, false) {
      return;
    }
    if node.Link? && (!w.follow || !node.target.ToFile?) {
      return;
    }
    var info := if node.Link? then node.target.info else node.info;
    var hash := info.content;
    if rel in previous && previous[rel].size == info.size && previous[rel].mtime == info.mtime {
      hash := previous[rel].hash;
    } else {
      if !info.readable {
        return;
      }
      filesHashed' := filesHashed + 1;
    }
    out' := out[rel := FileMeta(info.size, info.mtime, info.mode, hash)];
  }

  /** A scan ends, and finds exactly the files that walks from the root lead to, each with
      a reused or a new hash; it hashes only those whose size or mtime moved. */
  method Scan(w: World, root: Key, previous: map<Rel, FileMeta>) returns (out: map<Rel, FileMeta>, filesHashed: nat)
    ensures forall r :: Lookup(out, r) == Expected(w, previous, Start(w, root), r)
    ensures filesHashed == |Hashed(previous, out)|
  {
    ghost var start := Start(w, root);
    var pending := [Item([], root, if w.follow then Extend(root, Nothing) else Nothing)];
    out, filesHashed := map[], 0;
    StartIsPlaced(w, root, previous);
    while pending != []
      invariant Placed(w, start, pending, start, [])
      invariant Settled(w, previous, start, pending, start, [], out)
      invariant filesHashed == |Hashed(previous, out)|
      decreases StackCost(w, pending)
    {
      PopKeeps(w, previous, start, pending, out);
      ghost var before := StackCost(w, pending);
      var it := pending[|pending| - 1];
      pending := pending[..|pending| - 1];
      var names := Entries(w, it);
      assert names[0..] == names;
      assert StackCost(w, pending) + Cost(w, it, names) < before;
      for i := 0 to |names|
        invariant Placed(w, start, pending, it, names[i..])
        invariant Settled(w, previous, start, pending, it, names[i..], out)
        invariant filesHashed == |Hashed(previous, out)|
        invariant StackCost(w, pending) + Cost(w, it, names[i..]) < before
      {
        assert names[i..][1..] == names[i + 1..] && names[i] in names;
        VisitKeepsPlaces(w, start, pending, it, names[i..]);
        VisitKeepsSettled(w, previous, start, pending, it, names[i..], out);
        VisitCost(w, pending, it, names[i..]);
        pending, out, filesHashed := Visit(w, previous, it, names[i], pending, out, filesHashed);
      }
      DirectoryDone(w, previous, start, pending, it, out);
    }
    AllSettled(w, previous, start, out);
  }

  lemma StartIsPlaced(w: World, root: Key, previous: map<Rel, FileMeta>)
    ensures Placed(w, Start(w, root), [Start(w, root)], Start(w, root), [])
    ensures Settled(w, previous, Start(w, root), [Start(w, root)], Start(w, root), [], map[])
  {
    var start := Start(w, root);
    forall t: Rel | t != []
      ensures Look(w, start, start.rel + t) == Look(w, start, t)
    {
      assert [] + t == t;
    }
    forall r: Rel
      ensures Awaited([start], r) || Expected(w, previous, start, r) == None
    {
      if r != [] {
        assert [start][0].rel < r;
      }
    }
  }

  lemma VisitCost(w: World, pending: seq<Item>, it: Item, names: seq<Name>)
    requires names != []
    ensures StackCost(w, pending + Pushed(w, it, names[0])) + Cost(w, it, names[1..]) ==
            StackCost(w, pending) + Cost(w, it, names)
  {
    CostStep(w, it, names);
    if Child(w, it, names[0]).Some? {
      PushCost(w, pending, Child(w, it, names[0]).value);
      PushCost(w, [], Child(w, it, names[0]).value);
    } else {
      assert pending + [] == pending;
    }
  }

  lemma DirectoryDone(w: World, previous: map<Rel, FileMeta>, start: Item, pending: seq<Item>, it: Item, out: map<Rel, FileMeta>)
    requires Placed(w, start, pending, it, []) && Settled(w, previous, start, pending, it, [], out)
    ensures Genuine(w, start, start) ==> Placed(w, start, pending, start, [])
    ensures Settled(w, previous, start, pending, start, [], out)
  {
  }

  lemma AllSettled(w: World, previous: map<Rel, FileMeta>, start: Item, out: map<Rel, FileMeta>)
    requires Settled(w, previous, start, [], start, [], out)
    ensures forall r :: Lookup(out, r) == Expected(w, previous, start, r)
  {
  }

  // ----- What a scan amounts to -------------------------------------------------

  /** Scanning the same directories again, with the last result as the cache, changes
      nothing and hashes nothing. */
  lemma RescanIsFree(w: World, start: Item, first: map<Rel, FileMeta>, out: map<Rel, FileMeta>, again: map<Rel, FileMeta>)
    requires forall r :: Lookup(out, r) == Expected(w, first, start, r)
    requires forall r :: Lookup(again, r) == Expected(w, out, start, r)
    ensures again == out && Hashed(out, again) == {}
  {
    forall r
      ensures Lookup(again, r) == Lookup(out, r)
    {
      assert Lookup(out, r) == Expected(w, first, start, r);
    }
    assert forall r :: r in again <==> Lookup(again, r).Some?;
    assert forall r :: r in out <==> Lookup(out, r).Some?;
    forall r | r in again
      ensures r in out && again[r] == out[r]
    {
      assert Lookup(again, r) == Lookup(out, r);
    }
  }

  // ----- Trusting size and mtime ------------------------------------------------

  /** What happens to the manifest before a scan reads it as its cache: entries dropped, and
      entries recorded by transfers, each true of the file when it landed. */
  datatype Interim = Interim(dropped: set<Rel>, landed: map<Rel, FileInfo>)

  function EntryOf(info: FileInfo): FileMeta {
    FileMeta(info.size, info.mtime, info.mode, info.content)
  }

  /** The cache of the i-th scan: the last result as sessions have left it. */
  function CacheOf(outs: seq<map<Rel, FileMeta>>, interims: seq<Interim>, i: nat): map<Rel, FileMeta>
    requires i <= |outs| && i < |interims|
  {
    var last: map<Rel, FileMeta> := if i == 0 then map[] else outs[i - 1];
    (last - interims[i].dropped) + (map r | r in interims[i].landed :: EntryOf(interims[i].landed[r]))
  }

  /** Scans of one root as its directories change, each with such a cache. */
  ghost predicate Rescans(worlds: seq<World>, root: Key, interims: seq<Interim>, outs: seq<map<Rel, FileMeta>>) {
    && |worlds| == |outs| == |interims|
    && forall i, r :: 0 <= i < |outs| ==>
         Lookup(outs[i], r) == Expected(worlds[i], CacheOf(outs, interims, i), Start(worlds[i], root), r)
  }

  function Found(worlds: seq<World>, root: Key, i: nat, r: Rel): Option<FileInfo>
    requires i < |worlds|
  {
    Look(worlds[i], Start(worlds[i], root), r)
  }

  /** Every hash the i-th scan recorded is that of what the file held at the time. */
  ghost predicate TrueAt(worlds: seq<World>, root: Key, outs: seq<map<Rel, FileMeta>>, i: nat)
    requires |worlds| == |outs| && i < |outs|
  {
    forall r :: r in outs[i] ==> Found(worlds, root, i, r).Some? && outs[i][r].hash == Found(worlds, root, i, r).value.content
  }

  /** The file that the i-th scan's cache describes at r: the one that landed there last, or
      else the one the scan before found. */
  function Known(worlds: seq<World>, root: Key, interims: seq<Interim>, outs: seq<map<Rel, FileMeta>>, i: nat, r: Rel): Option<FileInfo>
    requires |worlds| == |outs| == |interims| && i < |outs|
  {
    if r in interims[i].landed then Some(interims[i].landed[r])
    else if i > 0 && r in outs[i - 1] && r !in interims[i].dropped then Found(worlds, root, i - 1, r)
    else None
  }

  /** Since it was landed or found, the file at r changed content and kept both its size and
      its mtime. */
  ghost predicate EditedUnseen(worlds: seq<World>, root: Key, interims: seq<Interim>, outs: seq<map<Rel, FileMeta>>, i: nat, r: Rel)
    requires |worlds| == |outs| == |interims| && i < |outs|
  {
    Known(worlds, root, interims, outs, i, r).Some? && Found(worlds, root, i, r).Some? &&
    var before, after := Known(worlds, root, interims, outs, i, r).value, Found(worlds, root, i, r).value;
    before.size == after.size && before.mtime == after.mtime && before.content != after.content
  }

  /** What one scan records of r, from its cache. */
  lemma Recorded(worlds: seq<World>, root: Key, interims: seq<Interim>, outs: seq<map<Rel, FileMeta>>, i: nat, r: Rel)
    requires Rescans(worlds, root, interims, outs) && i < |outs|
    ensures var cache := CacheOf(outs, interims, i);
            && (r in outs[i] ==>
                  Found(worlds, root, i, r).Some? &&
                  var info := Found(worlds, root, i, r).value;
                  && outs[i][r].size == info.size && outs[i][r].mtime == info.mtime
                  && outs[i][r].hash == (if Cached(cache, r, info) then cache[r].hash else info.content))
            && (Found(worlds, root, i, r).Some? && Cached(cache, r, Found(worlds, root, i, r).value) ==> r in outs[i])
  {
    assert Lookup(outs[i], r) == Expected(worlds[i], CacheOf(outs, interims, i), Start(worlds[i], root), r);
    hide Rescans, Look, CacheOf;
  }

  /** As long as the scan before recorded the truth, the cache describes the known file. */
  lemma CacheIsKnown(worlds: seq<World>, root: Key, interims: seq<Interim>, outs: seq<map<Rel, FileMeta>>, i: nat, r: Rel)
    requires Rescans(worlds, root, interims, outs) && i < |outs| && (i > 0 ==> TrueAt(worlds, root, outs, i - 1))
    ensures var cache, known := CacheOf(outs, interims, i), Known(worlds, root, interims, outs, i, r);
            && (r in cache <==> known.Some?)
            && (known.Some? ==>
                  cache[r].size == known.value.size && cache[r].mtime == known.value.mtime && cache[r].hash == known.value.content)
  {
    if i > 0 {
      Recorded(worlds, root, interims, outs, i - 1, r);
    }
    hide Rescans, Found, Cached;
  }

  lemma TruthPasses(worlds: seq<World>, root: Key, interims: seq<Interim>, outs: seq<map<Rel, FileMeta>>, i: nat, r: Rel)
    requires Rescans(worlds, root, interims, outs) && i < |outs| && (i > 0 ==> TrueAt(worlds, root, outs, i - 1))
    ensures EditedUnseen(worlds, root, interims, outs, i, r) ==> !TrueAt(worlds, root, outs, i)
    ensures !EditedUnseen(worlds, root, interims, outs, i, r) && r in outs[i] ==>
              Found(worlds, root, i, r).Some? && outs[i][r].hash == Found(worlds, root, i, r).value.content
  {
    CacheIsKnown(worlds, root, interims, outs, i, r);
    Recorded(worlds, root, interims, outs, i, r);
    hide Rescans, Found, CacheOf, Known;
  }

  lemma {:induction false} TruthUpTo(worlds: seq<World>, root: Key, interims: seq<Interim>, outs: seq<map<Rel, FileMeta>>, i: nat)
    requires Rescans(worlds, root, interims, outs) && i < |outs|
    requires forall k, r :: 0 <= k <= i ==> !EditedUnseen(worlds, root, interims, outs, k, r)
    ensures TrueAt(worlds, root, outs, i)
  {
    if i > 0 {
      TruthUpTo(worlds, root, interims, outs, i - 1);
    }
    forall r | r in outs[i]
      ensures Found(worlds, root, i, r).Some? && outs[i][r].hash == Found(worlds, root, i, r).value.content
    {
      TruthPasses(worlds, root, interims, outs, i, r);
    }
    hide Rescans, Found, EditedUnseen;
  }

  /** Exactly when rescanning with the manifest as the cache is right: over any series of scans,
      with edits and transfers between them, every scan records the true hashes if and only if
      no file changes content, after it was last scanned or landed and before the next scan,
      keeping both its size and its mtime. */
  lemma HashesAreTrueExactly(worlds: seq<World>, root: Key, interims: seq<Interim>, outs: seq<map<Rel, FileMeta>>)
    requires Rescans(worlds, root, interims, outs)
    ensures (forall i :: 0 <= i < |outs| ==> TrueAt(worlds, root, outs, i)) <==>
            (forall i, r :: 0 <= i < |outs| ==> !EditedUnseen(worlds, root, interims, outs, i, r))
  {
    if forall i, r :: 0 <= i < |outs| ==> !EditedUnseen(worlds, root, interims, outs, i, r) {
      forall i | 0 <= i < |outs|
        ensures TrueAt(worlds, root, outs, i)
      {
        TruthUpTo(worlds, root, interims, outs, i);
      }
    } else {
      var i, r :| 0 <= i < |outs| && EditedUnseen(worlds, root, interims, outs, i, r);
      if i > 0 ==> TrueAt(worlds, root, outs, i - 1) {
        TruthPasses(worlds, root, interims, outs, i, r);
        assert !TrueAt(worlds, root, outs, i);
      }
    }
    hide Rescans, TrueAt, EditedUnseen;
  }

  /** Every directory on the way, and the file at its end, as ordinary entries. */
  ghost predicate PlainPath(w: World, dir: Key, rel: Rel, names: Rel, info: FileInfo)
    decreases |names|
  {
    && names != [] && dir in w.fs && names[0] in w.fs[dir] && names[0] != DOT && names[0] != DOT_DOT
    && if |names| == 1 then w.fs[dir][names[0]] == File(info) && !w.ignored(rel + names, false)
       else w.fs[dir][names[0]] == Dir && !w.ignored(rel + [names[0]], true) &&
            PlainPath(w, dir + [names[0]], rel + [names[0]], names[1..], info)
  }

  /** Without following, a scan passes through no link: it is the tree itself. */
  lemma {:induction false} UnfollowedScanIsTheTree(w: World, it: Item, names: Rel, info: FileInfo)
    requires !w.follow
    ensures Look(w, it, names) == Some(info) <==> PlainPath(w, it.dir, it.rel, names, info)
    decreases |names|
  {
    if |names| > 1 {
      if Child(w, it, names[0]).Some? {
        UnfollowedScanIsTheTree(w, Child(w, it, names[0]).value, names[1..], info);
      }
    } else if |names| == 1 {
      assert names == [names[0]];
    }
  }

  /** A file, or a link to one. */
  predicate HoldsFile(node: Node, info: FileInfo) {
    node == File(info) || node == Link(false, ToFile(info))
  }

  /** The directory an entry is or leads to, unless that is a link to one already gone through. */
  predicate LeadsTo(node: Node, dir: Key, name: Name, seen: set<Key>, key: Key) {
    (node == Dir && key == dir + [name]) || (node == Link(true, ToDir(Some(key))) && key !in seen)
  }

  /** Every directory on the way, or link to one off the way so far, and the file or link to a
      file at its end. seen are the directories come through, dir among them. */
  ghost predicate LinkedPath(w: World, dir: Key, rel: Rel, seen: set<Key>, names: Rel, info: FileInfo)
    decreases |names|
  {
    && names != [] && dir in w.fs && names[0] in w.fs[dir] && names[0] != DOT && names[0] != DOT_DOT
    && if |names| == 1 then HoldsFile(w.fs[dir][names[0]], info) && !w.ignored(rel + names, false)
       else !w.ignored(rel + [names[0]], true) &&
            exists key :: LeadsTo(w.fs[dir][names[0]], dir, names[0], seen, key) &&
                          LinkedPath(w, key, rel + [names[0]], seen + {key}, names[1..], info)
  }

  lemma EntryLeads(w: World, it: Item, name: Name, key: Key)
    requires w.follow && it.dir in w.fs && name in w.fs[it.dir] && name != DOT && name != DOT_DOT
    requires !w.ignored(it.rel + [name], true)
    ensures LeadsTo(w.fs[it.dir][name], it.dir, name, Keys(it.chain), key) <==>
            Child(w, it, name).Some? && Child(w, it, name).value == Item(it.rel + [name], key, Extend(key, it.chain))
  {
    hide Keys;
  }

  /** With following, a scan finds just what is reached so. */
  lemma {:induction false} FollowedScanIsTheWalk(w: World, it: Item, names: Rel, info: FileInfo)
    requires w.follow
    ensures Look(w, it, names) == Some(info) <==> LinkedPath(w, it.dir, it.rel, Keys(it.chain), names, info)
    decreases |names|
  {
    if |names| == 1 {
      assert names == [names[0]];
      hide Keys;
    } else if |names| > 1 {
      var name := names[0];
      if Child(w, it, name).Some? {
        var c := Child(w, it, name).value;
        EntryLeads(w, it, name, c.dir);
        FollowedScanIsTheWalk(w, c, names[1..], info);
        assert Keys(c.chain) == Keys(it.chain) + {c.dir};
      }
      forall key | Listed(w, it, name) && !w.ignored(it.rel + [name], true)
        ensures LeadsTo(w.fs[it.dir][name], it.dir, name, Keys(it.chain), key) <==>
                Child(w, it, name).Some? && Child(w, it, name).value == Item(it.rel + [name], key, Extend(key, it.chain))
      {
        EntryLeads(w, it, name, key);
      }
      hide Keys, LeadsTo, FileAt;
    }
  }

  /** A path of the tree as this scanner is set up, and the file it leads to. */
  ghost predicate Reached(w: World, root: Key, r: Rel, info: FileInfo) {
    if w.follow then LinkedPath(w, root, [], {root}, r, info) else PlainPath(w, root, [], r, info)
  }

  predicate SameStat(m: FileMeta, info: FileInfo) {
    m.size == info.size && m.mtime == info.mtime
  }

  /** What a scan returns: an entry for each file reached that can be read or whose size and
      mtime are as cached, with the file's size, mtime and mode, and with the cached hash or
      else its own. */
  lemma ScanIsTheTree(w: World, root: Key, previous: map<Rel, FileMeta>, out: map<Rel, FileMeta>, r: Rel)
    requires forall q :: Lookup(out, q) == Expected(w, previous, Start(w, root), q)
    ensures r in out <==>
            exists info :: Reached(w, root, r, info) && (info.readable || (r in previous && SameStat(previous[r], info)))
    ensures forall info :: Reached(w, root, r, info) && r in out ==>
              && out[r].size == info.size && out[r].mtime == info.mtime && out[r].mode == info.mode
              && out[r].hash == (if r in previous && SameStat(previous[r], info) then previous[r].hash else info.content)
  {
    var start := Start(w, root);
    assert Lookup(out, r) == Expected(w, previous, start, r);
    forall info
      ensures Reached(w, root, r, info) <==> Look(w, start, r) == Some(info)
    {
      if w.follow {
        assert Keys(start.chain) == {root};
        FollowedScanIsTheWalk(w, start, r, info);
      } else {
        UnfollowedScanIsTheTree(w, start, r, info);
      }
    }
    hide Look, Reached;
  }

  // ----- Directories entered twice ----------------------------------------------

  /** The directory a sequence of entries leads to. */
  function WalkTo(w: World, it: Item, names: Rel): Option<Item>
    decreases |names|
  {
    if names == [] then Some(it)
    else match WalkTo(w, it, names[..|names| - 1]) case None => None case Some(x) => Child(w, x, names[|names| - 1])
  }

  predicate ByLink(w: World, it: Item, name: Name) {
    Child(w, it, name).Some? && w.fs[it.dir][name].Link?
  }

  predicate ByName(w: World, it: Item, name: Name) {
    Child(w, it, name).Some? && w.fs[it.dir][name].Dir?
  }

  /** Down through ordinary subdirectories only. */
  predicate Plain(w: World, it: Item, down: Rel)
    decreases |down|
  {
    down == [] ||
    (Plain(w, it, down[..|down| - 1]) && WalkTo(w, it, down[..|down| - 1]).Some? &&
     ByName(w, WalkTo(w, it, down[..|down| - 1]).value, down[|down| - 1]))
  }

  /** The walk enters a directory already on its chain. */
  predicate Reenters(w: World, start: Item, names: Rel, name: Name) {
    var x := WalkTo(w, start, names);
    x.Some? && Child(w, x.value, name).Some? && Child(w, x.value, name).value.dir in Keys(x.value.chain)
  }

  /** The walk follows a link to a directory whose ordinary subdirectories lead back down
      to one already on its chain. */
  predicate LinksAbove(w: World, start: Item, names: Rel, name: Name, down: Rel) {
    var x := WalkTo(w, start, names);
    x.Some? && ByLink(w, x.value, name) && down != [] &&
    var c := Child(w, x.value, name).value;
    Plain(w, c, down) && c.dir + down in Keys(x.value.chain)
  }

  lemma {:induction false} WalkAppend(w: World, it: Item, a: Rel, b: Rel)
    requires WalkTo(w, it, a).Some?
    ensures WalkTo(w, it, a + b) == WalkTo(w, WalkTo(w, it, a).value, b)
    decreases |b|
  {
    if b == [] {
      assert a + b == a;
    } else {
      WalkAppend(w, it, a, b[..|b| - 1]);
      assert (a + b)[..|a + b| - 1] == a + b[..|b| - 1];
    }
  }

  /** Going down by name appends to the key, and the chain gains only longer keys. */
  lemma {:induction false} PlainKeys(w: World, it: Item, down: Rel)
    requires w.follow && Plain(w, it, down)
    ensures WalkTo(w, it, down).Some?
    ensures var y := WalkTo(w, it, down).value;
            && y.dir == it.dir + down && Keys(it.chain) <= Keys(y.chain)
            && forall k :: k in Keys(y.chain) ==> k in Keys(it.chain) || |k| <= |y.dir|
    decreases |down|
  {
    if down == [] {
      assert it.dir + down == it.dir;
    } else {
      PlainKeys(w, it, down[..|down| - 1]);
      assert it.dir + down[..|down| - 1] + [down[|down| - 1]] == it.dir + down;
    }
  }

  /** Since the last link, or since the root, a walk went down by name. */
  lemma {:induction false} LastLink(w: World, start: Item, names: Rel) returns (cut: nat)
    requires WalkTo(w, start, names).Some?
    ensures cut <= |names| && WalkTo(w, start, names[..cut]).Some?
    ensures Plain(w, WalkTo(w, start, names[..cut]).value, names[cut..])
    ensures cut > 0 ==> WalkTo(w, start, names[..cut - 1]).Some? && ByLink(w, WalkTo(w, start, names[..cut - 1]).value, names[cut - 1])
    decreases |names|
  {
    hide *;
    if names == [] {
      cut := 0;
      assert names[..0] == [] && names[0..] == [];
      NothingDown(w, WalkTo(w, start, names).value);
    } else {
      var init, last := names[..|names| - 1], names[|names| - 1];
      var x := WalkInit(w, start, names);
      if ByLink(w, x, last) {
        cut := |names|;
        assert names[..cut] == names && names[cut..] == [];
        NothingDown(w, WalkTo(w, start, names).value);
      } else {
        NotByLink(w, x, last);
        cut := LastLink(w, start, init);
        assert init[..cut] == names[..cut];
        assert cut > 0 ==> init[..cut - 1] == names[..cut - 1];
        var o, d := WalkTo(w, start, init[..cut]).value, init[cut..];
        assert init == init[..cut] + d;
        WalkAppend(w, start, init[..cut], d);
        PlainOn(w, o, d, last);
        assert names[cut..] == d + [last];
      }
    }
  }

  lemma NothingDown(w: World, it: Item)
    ensures Plain(w, it, [])
  {
  }

  lemma NotByLink(w: World, it: Item, name: Name)
    requires Child(w, it, name).Some? && !ByLink(w, it, name)
    ensures ByName(w, it, name)
  {
  }

  lemma WalkInit(w: World, start: Item, names: Rel) returns (x: Item)
    requires names != [] && WalkTo(w, start, names).Some?
    ensures WalkTo(w, start, names[..|names| - 1]) == Some(x) && Child(w, x, names[|names| - 1]).Some?
  {
    x := WalkTo(w, start, names[..|names| - 1]).value;
  }

  /** Only links are refused for being on the chain, so the documented rule can fail; it
      fails exactly when a link climbs above the chain it came through. */
  lemma ReentersExactly(w: World, root: Key)
    requires w.follow
    ensures (exists names, name :: Reenters(w, Start(w, root), names, name)) <==>
            (exists names, name, down :: LinksAbove(w, Start(w, root), names, name, down))
  {
    var start := Start(w, root);
    if names, name :| Reenters(w, start, names, name) {
      var down := ReentryClimbs(w, root, names, name);
    }
    if names, name, down :| LinksAbove(w, start, names, name, down) {
      ClimbReenters(w, start, names, name, down);
    }
  }

  lemma WalkOn(w: World, it: Item, names: Rel, name: Name)
    ensures WalkTo(w, it, names + [name]) ==
            (if WalkTo(w, it, names).Some? then Child(w, WalkTo(w, it, names).value, name) else None)
  {
    assert (names + [name])[..|names|] == names;
  }

  /** What entering a directory does to key and chain. */
  lemma Entered(w: World, it: Item, name: Name)
    requires w.follow && Child(w, it, name).Some?
    ensures var c := Child(w, it, name).value;
            && Keys(c.chain) == {c.dir} + Keys(it.chain)
            && (ByName(w, it, name) ==> c.dir == it.dir + [name])
            && (!ByName(w, it, name) ==> ByLink(w, it, name) && c.dir !in Keys(it.chain))
  {
  }

  lemma LinkedDown(w: World, start: Item, names: Rel, name: Name, down: Rel)
    requires LinksAbove(w, start, names, name, down)
    ensures WalkTo(w, start, names).Some? && down != []
    ensures var x := WalkTo(w, start, names).value;
            && Child(w, x, name).Some?
            && var c, init := Child(w, x, name).value, down[..|down| - 1];
               && Plain(w, c, init) && WalkTo(w, c, init).Some? && ByName(w, WalkTo(w, c, init).value, down[|down| - 1])
               && Child(w, WalkTo(w, c, init).value, down[|down| - 1]).Some?
               && c.dir + down in Keys(x.chain)
  {
    hide Child, WalkTo, Keys;
  }

  lemma ReentersHere(w: World, start: Item, names: Rel, y: Item, name: Name)
    requires WalkTo(w, start, names) == Some(y) && Child(w, y, name).Some? && Child(w, y, name).value.dir in Keys(y.chain)
    ensures Reenters(w, start, names, name)
  {
    hide Child, WalkTo, Keys;
  }

  lemma ClimbReenters(w: World, start: Item, names: Rel, name: Name, down: Rel)
    requires w.follow && LinksAbove(w, start, names, name, down)
    ensures down != [] && Reenters(w, start, names + [name] + down[..|down| - 1], down[|down| - 1])
  {
    hide *;
    LinkedDown(w, start, names, name, down);
    var x := WalkTo(w, start, names).value;
    var c := Child(w, x, name).value;
    var init, last := down[..|down| - 1], down[|down| - 1];
    WalkOn(w, start, names, name);
    WalkAppend(w, start, names + [name], init);
    PlainKeys(w, c, init);
    var y := WalkTo(w, c, init).value;
    assert Child(w, y, last).value.dir == c.dir + down by {
      Entered(w, y, last);
      assert c.dir + init + [last] == c.dir + down;
    }
    assert c.dir + down in Keys(y.chain) by {
      Entered(w, x, name);
    }
    ReentersHere(w, start, names + [name] + init, y, last);
  }

  lemma StartsAtRoot(w: World, root: Key)
    requires w.follow
    ensures Keys(Start(w, root).chain) == {root}
    ensures WalkTo(w, Start(w, root), []) == Some(Start(w, root))
  {
  }

  lemma ReentryClimbs(w: World, root: Key, names: Rel, name: Name) returns (down: Rel)
    requires w.follow && Reenters(w, Start(w, root), names, name)
    ensures exists upto, link :: LinksAbove(w, Start(w, root), upto, link, down)
  {
    hide Child, WalkTo, Keys, ByName, ByLink, Plain, LinksAbove;
    var start := Start(w, root);
    var x := WalkTo(w, start, names).value;
    var cut := LastLink(w, start, names);
    var o, d := WalkTo(w, start, names[..cut]).value, names[cut..];
    assert names == names[..cut] + d;
    WalkAppend(w, start, names[..cut], d);
    PlainKeys(w, o, d);
    Entered(w, x, name);
    down := d + [name];
    assert o.dir + d + [name] == o.dir + down;
    assert o.dir + down in Keys(o.chain);
    PlainOn(w, o, d, name);
    StartsAtRoot(w, root);
    assert names[..0] == [];
    assert cut > 0;
    var p, link := WalkTo(w, start, names[..cut - 1]).value, names[cut - 1];
    WalkOn(w, start, names[..cut - 1], link);
    assert names[..cut - 1] + [link] == names[..cut];
    LinkClimbs(w, start, names[..cut - 1], link, down);
  }

  lemma LinkClimbs(w: World, start: Item, upto: Rel, link: Name, down: Rel)
    requires w.follow && WalkTo(w, start, upto).Some? && ByLink(w, WalkTo(w, start, upto).value, link) && down != []
    requires var c := Child(w, WalkTo(w, start, upto).value, link).value;
             Plain(w, c, down) && c.dir + down in Keys(c.chain)
    ensures LinksAbove(w, start, upto, link, down)
  {
    Entered(w, WalkTo(w, start, upto).value, link);
    hide WalkTo, Keys, Plain;
  }

  lemma PlainOn(w: World, it: Item, d: Rel, name: Name)
    requires Plain(w, it, d) && WalkTo(w, it, d).Some? && ByName(w, WalkTo(w, it, d).value, name)
    ensures Plain(w, it, d + [name])
  {
    assert (d + [name])[..|d|] == d;
  }

  function Climber(x: Name, up: Name, f: Name, info: FileInfo): World {
    World(map[[x] := map[f := File(info), up := Link(true, ToDir(Some([])))], [] := map[x := Dir]], true, (r, isDir) => false)
  }

  /** Such a tree: a directory holding a link to its own parent. Its file is found once
      more, under the link and the directory's own name. */
  lemma SubdirectoryReentered(x: Name, up: Name, f: Name, info: FileInfo)
    requires x != DOT && x != DOT_DOT && up != DOT && up != DOT_DOT && f != DOT && f != DOT_DOT && up != f
    ensures var w := Climber(x, up, f, info);
            && Reenters(w, Start(w, [x]), [up], x)
            && Look(w, Start(w, [x]), [f]) == Look(w, Start(w, [x]), [up, x, f]) == Some(info)
  {
    var w := Climber(x, up, f, info);
    var start := Start(w, [x]);
    var c := Item([up], [], Extend([], start.chain));
    var again := Item([up, x], [x], Extend([x], c.chain));
    ClimberSteps(x, up, f, info);
    hide Child, FileAt, Climber, Keys;
    assert [up][..0] == [];
    assert WalkTo(w, start, []) == Some(start);
    assert WalkTo(w, start, [up]) == Some(c);
    assert [up, x, f][1..] == [x, f] && [x, f][1..] == [f];
    assert Look(w, again, [f]) == Some(info);
    assert Look(w, c, [x, f]) == Some(info);
  }

  lemma ClimberSteps(x: Name, up: Name, f: Name, info: FileInfo)
    requires x != DOT && x != DOT_DOT && up != DOT && up != DOT_DOT && f != DOT && f != DOT_DOT && up != f
    ensures var w := Climber(x, up, f, info);
            var start := Start(w, [x]);
            var c := Item([up], [], Extend([], start.chain));
            var again := Item([up, x], [x], Extend([x], c.chain));
            && Child(w, start, up) == Some(c) && Child(w, c, x) == Some(again) && [x] in Keys(c.chain)
            && FileAt(w, start, f) == Some(info) && FileAt(w, again, f) == Some(info)
  {
    var w := Climber(x, up, f, info);
    var start := Start(w, [x]);
    var c := Item([up], [], Extend([], start.chain));
    assert w.fs[[x]] == map[f := File(info), up := Link(true, ToDir(Some([])))] by {
      var root: Key := [];
      assert |[x]| == 1 && root != [x];
    }
    assert w.fs[[]] == map[x := Dir];
    assert Keys(start.chain) == {[x]} && [x] in Keys(c.chain);
    hide Climber, Keys;
    assert Child(w, start, up) == Some(c) by {
      assert start.rel + [up] == [up];
    }
    assert [] + [x] == [x] && [up] + [x] == [up, x];
  }
}
