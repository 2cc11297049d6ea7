/** Incremental tree advertisement: the sender's last_sent_ discipline, the receiver's
    staged commit, and the two of them joined by a FIFO channel. */
module Advert {
  import opened Types
  import opened Manifests
  import opened Codec
  import opened Chunking

  // ----- Items applied to a tree ------------------------------------------------

  function ApplyItem(t: Tree, x: Item): Tree {
    match x
    case Put(p, m) => t[p := m]
    case Drop(p) => t - {p}
  }

  function ApplyItems(t: Tree, xs: seq<Item>): Tree {
    if xs == [] then t else ApplyItem(ApplyItems(t, xs[..|xs| - 1]), xs[|xs| - 1])
  }

  lemma {:induction false} ApplyConcat(t: Tree, xs: seq<Item>, ys: seq<Item>)
    ensures ApplyItems(t, xs + ys) == ApplyItems(ApplyItems(t, xs), ys)
  {
    if ys == [] {
      assert xs + ys == xs;
    } else {
      ApplyConcat(t, xs, ys[..|ys| - 1]);
      assert (xs + ys)[..|xs + ys| - 1] == xs + ys[..|ys| - 1];
    }
  }

  lemma {:induction false} UpsertIsPuts(t: Tree, es: seq<Entry>)
    ensures Upsert(t, es) == ApplyItems(t, Puts(es))
  {
    if es != [] {
      UpsertIsPuts(t, es[..|es| - 1]);
      assert Puts(es)[..|es| - 1] == Puts(es[..|es| - 1]);
    }
  }

  lemma {:induction false} RemovalIsDrops(t: Tree, ps: seq<Path>)
    ensures t - Elements(ps) == ApplyItems(t, Drops(ps))
  {
    if ps != [] {
      var n := |ps| - 1;
      RemovalIsDrops(t, ps[..n]);
      assert Drops(ps)[..n] == Drops(ps[..n]);
      assert ps == ps[..n] + [ps[n]];
      assert Elements(ps) == Elements(ps[..n]) + {ps[n]};
    }
  }

  /** Applying a patch is applying its items. */
  lemma PatchIsItems(t: Tree, p: ManifestPatch)
    ensures ApplyPatch(t, p) == ApplyItems(t, Items(p))
  {
    UpsertIsPuts(t, p.upserts);
    RemovalIsDrops(Upsert(t, p.upserts), p.removed);
    ApplyConcat(t, Puts(p.upserts), Drops(p.removed));
  }

  // ----- Unsafe paths -----------------------------------------------------------

  /** A peer-supplied entry with an unsafe path is dropped; removals never are. */
  function SafeEntries(es: seq<Entry>, safe: Path -> bool): seq<Entry> {
    if es == [] then [] else
      SafeEntries(es[..|es| - 1], safe) + (if safe(es[|es| - 1].0) then [es[|es| - 1]] else [])
  }

  function Sanitize(p: ManifestPatch, safe: Path -> bool): ManifestPatch {
    p.(upserts := SafeEntries(p.upserts, safe))
  }

  lemma {:induction false} SanitizedUpsert(t: Tree, es: seq<Entry>, safe: Path -> bool)
    ensures Safe(Upsert(t, es), safe) == Upsert(Safe(t, safe), SafeEntries(es, safe))
  {
    if es != [] {
      var n := |es| - 1;
      SanitizedUpsert(t, es[..n], safe);
      var kept := SafeEntries(es[..n], safe);
      if safe(es[n].0) {
        assert (kept + [es[n]])[..|kept|] == kept;
      } else {
        assert kept + [] == kept;
      }
    }
  }

  /** Filtering what arrives keeps exactly the safe part of what was meant. */
  lemma SanitizedPatch(t: Tree, p: ManifestPatch, safe: Path -> bool)
    ensures ApplyPatch(Safe(t, safe), Sanitize(p, safe)) == Safe(ApplyPatch(t, p), safe)
  {
    SanitizedUpsert(t, p.upserts, safe);
  }

  // ----- The receiver -----------------------------------------------------------

  /** What a session knows of its peer's tree. */
  datatype PeerView = PeerView(remote: Tree, have: bool, version: nat, staging: Tree, staged: bool)

  const NOTHING_HEARD := PeerView(map[], false, 0, map[], false)

  function Commit(v: PeerView, t: Tree): PeerView {
    PeerView(t, true, v.version + 1, map[], false)
  }

  /** One message: complete updates reach remote in one step, partial ones are put
      together aside. */
  function Receive(v: PeerView, u: Update, safe: Path -> bool): PeerView {
    var t := ApplyPatch(Basis(v, u.reset), Sanitize(u.patch, safe));
    if u.more then v.(staging := t, staged := true) else Commit(v, t)
  }

  /** What a message's patch applies to. */
  function Basis(v: PeerView, reset: bool): Tree {
    if reset then map[] else if v.staged then v.staging else v.remote
  }

  function Replay(v: PeerView, wire: seq<Update>, safe: Path -> bool): PeerView {
    if wire == [] then v else Receive(Replay(v, wire[..|wire| - 1], safe), wire[|wire| - 1], safe)
  }

  lemma {:induction false} ReplayConcat(v: PeerView, xs: seq<Update>, ys: seq<Update>, safe: Path -> bool)
    ensures Replay(v, xs + ys, safe) == Replay(Replay(v, xs, safe), ys, safe)
  {
    if ys == [] {
      assert xs + ys == xs;
    } else {
      ReplayConcat(v, xs, ys[..|ys| - 1], safe);
      assert (xs + ys)[..|xs + ys| - 1] == xs + ys[..|ys| - 1];
    }
  }

  /** The tree an update is written against: nothing, or what the peer last heard. */
  function Origin(reset: bool, sent: Tree): Tree {
    if reset then map[] else sent
  }

  lemma SafeOfOrigin(reset: bool, sent: Tree, safe: Path -> bool)
    ensures Safe(Origin(reset, sent), safe) == Origin(reset, Safe(sent, safe))
  {
  }

  /** Part way through an update, the receiver's tree, version and readiness are what
      they were; the tree under construction is the safe part of what was sent so far. */
  ghost predicate PartWay(v: PeerView, w: PeerView, sent: Tree, reset: bool, done: seq<Update>, safe: Path -> bool) {
    && w.remote == v.remote && w.have == v.have && w.version == v.version
    && (done == [] ==> w == v)
    && (done != [] ==> w.staged && w.staging == Safe(ApplyItems(Origin(reset, sent), Flat(done)), safe))
  }

  /** The receiver is ready for an update written against sent. */
  ghost predicate Ready(v: PeerView, sent: Tree, reset: bool, safe: Path -> bool) {
    !v.staged && (!reset ==> v.remote == Safe(sent, safe))
  }

  lemma ReplayStep(v: PeerView, wire: seq<Update>, k: nat, safe: Path -> bool)
    requires k < |wire|
    ensures Replay(v, wire[..k + 1], safe) == Receive(Replay(v, wire[..k], safe), wire[k], safe)
  {
    assert wire[..k + 1][..k] == wire[..k];
  }

  lemma {:induction false} ChunkFlags(wire: seq<Update>, items: seq<Item>, reset: bool, cap: nat, k: nat)
    requires Splits(wire, items, reset, cap) && k < |wire|
    ensures wire[k].reset == (reset && k == 0) && wire[k].more == (k < |wire| - 1)
    ensures Flat(wire) == items && wire != []
    ensures Flat(wire[..k + 1]) == Flat(wire[..k]) + Items(wire[k].patch)
  {
    assert wire[..k + 1] == wire[..k] + [wire[k]];
    FlatSnoc(wire[..k], wire[k]);
  }

  lemma BasisIsSafePart(v: PeerView, w: PeerView, sent: Tree, reset: bool, done: seq<Update>, u: Update, safe: Path -> bool)
    requires Ready(v, sent, reset, safe) && PartWay(v, w, sent, reset, done, safe)
    requires u.reset == (reset && done == [])
    ensures Basis(w, u.reset) == Safe(ApplyItems(Origin(reset, sent), Flat(done)), safe)
  {
    SafeOfOrigin(reset, sent, safe);
    assert Flat([]) == [];
  }

  /** What one more message of an update makes of the tree under construction. */
  lemma OneMoreChunk(v: PeerView, w: PeerView, sent: Tree, reset: bool, done: seq<Update>, u: Update, safe: Path -> bool)
    requires Ready(v, sent, reset, safe) && PartWay(v, w, sent, reset, done, safe)
    requires u.reset == (reset && done == [])
    ensures ApplyPatch(Basis(w, u.reset), Sanitize(u.patch, safe)) ==
            Safe(ApplyItems(Origin(reset, sent), Flat(done) + Items(u.patch)), safe)
  {
    hide *;
    var before := ApplyItems(Origin(reset, sent), Flat(done));
    BasisIsSafePart(v, w, sent, reset, done, u, safe);
    SanitizedPatch(before, u.patch, safe);
    PatchIsItems(before, u.patch);
    ApplyConcat(Origin(reset, sent), Flat(done), Items(u.patch));
  }

  lemma AdvancePart(v: PeerView, w: PeerView, sent: Tree, reset: bool, done: seq<Update>, u: Update, safe: Path -> bool)
    requires Ready(v, sent, reset, safe) && PartWay(v, w, sent, reset, done, safe)
    requires u.reset == (reset && done == [])
    ensures u.more ==> PartWay(v, Receive(w, u, safe), sent, reset, done + [u], safe)
    ensures !u.more ==>
              Receive(w, u, safe) == Commit(v, Safe(ApplyItems(Origin(reset, sent), Flat(done + [u])), safe))
  {
    OneMoreChunk(v, w, sent, reset, done, u, safe);
    FlatSnoc(done, u);
    hide Flat, ApplyPatch, Sanitize, Safe, ApplyItems, Basis, Origin, Items;
  }

  lemma NothingReplayed(v: PeerView, wire: seq<Update>, sent: Tree, reset: bool, safe: Path -> bool)
    ensures PartWay(v, Replay(v, wire[..0], safe), sent, reset, wire[..0], safe)
  {
  }

  lemma {:induction false} PartialUpdateIsInvisible(v: PeerView, wire: seq<Update>, items: seq<Item>, reset: bool, cap: nat,
                                                    sent: Tree, safe: Path -> bool, k: nat)
    requires Splits(wire, items, reset, cap) && k < |wire| && Ready(v, sent, reset, safe)
    ensures PartWay(v, Replay(v, wire[..k], safe), sent, reset, wire[..k], safe)
  {
    hide *;
    if k == 0 {
      NothingReplayed(v, wire, sent, reset, safe);
    } else {
      PartialUpdateIsInvisible(v, wire, items, reset, cap, sent, safe, k - 1);
      ReplayStep(v, wire, k - 1, safe);
      ChunkFlags(wire, items, reset, cap, k - 1);
      AdvancePart(v, Replay(v, wire[..k - 1], safe), sent, reset, wire[..k - 1], wire[k - 1], safe);
      assert wire[..k] == wire[..k - 1] + [wire[k - 1]];
    }
  }

  /** The last message commits the whole update at once. */
  lemma WholeUpdateCommits(v: PeerView, wire: seq<Update>, items: seq<Item>, reset: bool, cap: nat,
                           sent: Tree, safe: Path -> bool)
    requires Splits(wire, items, reset, cap) && Ready(v, sent, reset, safe)
    ensures Replay(v, wire, safe) == Commit(v, Safe(ApplyItems(Origin(reset, sent), items), safe))
  {
    hide *;
    var n := |wire| - 1;
    SplitsIsNonempty(wire, items, reset, cap);
    PartialUpdateIsInvisible(v, wire, items, reset, cap, sent, safe, n);
    ReplayStep(v, wire, n, safe);
    ChunkFlags(wire, items, reset, cap, n);
    AdvancePart(v, Replay(v, wire[..n], safe), sent, reset, wire[..n], wire[n], safe);
    assert wire[..n + 1] == wire && wire == wire[..n] + [wire[n]];
  }

  lemma SplitsIsNonempty(wire: seq<Update>, items: seq<Item>, reset: bool, cap: nat)
    requires Splits(wire, items, reset, cap)
    ensures wire != []
  {
  }
}
