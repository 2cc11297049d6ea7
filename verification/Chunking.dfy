/** Splitting one manifest update into messages, and what replaying them does. */
module Chunking {
  import opened Types
  import opened Manifests
  import opened Serialize
  import opened Codec

  /** A decoded ManifestUpdate message. */
  datatype Update = Update(reset: bool, more: bool, patch: ManifestPatch)

  /** A patch as the list of single changes it makes, in order. */
  datatype Item = Put(path: Path, meta: FileMeta) | Drop(path: Path)

  function Puts(es: seq<Entry>): seq<Item> {
    seq(|es|, i requires 0 <= i < |es| => Put(es[i].0, es[i].1))
  }

  function Drops(ps: seq<Path>): seq<Item> {
    seq(|ps|, i requires 0 <= i < |ps| => Drop(ps[i]))
  }

  function Items(p: ManifestPatch): seq<Item> {
    Puts(p.upserts) + Drops(p.removed)
  }

  function Flat(wire: seq<Update>): seq<Item> {
    if wire == [] then [] else Flat(wire[..|wire| - 1]) + Items(wire[|wire| - 1].patch)
  }

  function ItemCost(x: Item): nat {
    match x
    case Put(p, _) => ENTRY_FIXED_BYTES + |p|
    case Drop(p) => 2 + |p|
  }

  function Cost(xs: seq<Item>): nat {
    if xs == [] then 0 else Cost(xs[..|xs| - 1]) + ItemCost(xs[|xs| - 1])
  }

  lemma {:induction false} CostOfConcat(xs: seq<Item>, ys: seq<Item>)
    ensures Cost(xs + ys) == Cost(xs) + Cost(ys)
  {
    if ys == [] {
      assert xs + ys == xs;
    } else {
      CostOfConcat(xs, ys[..|ys| - 1]);
      assert (xs + ys)[..|xs + ys| - 1] == xs + ys[..|ys| - 1];
    }
  }

  /** A chunk that is not the last reached the cap, and only its last item took it there. */
  ghost predicate Filled(xs: seq<Item>, cap: nat) {
    xs != [] && cap <= Cost(xs) && Below(xs[..|xs| - 1], cap)
  }

  /** Not due to be flushed: a chunk is looked at only when an item has just gone in. */
  predicate Below(xs: seq<Item>, cap: nat) {
    xs == [] || Cost(xs) < cap
  }

  /** wire carries the items of patch, in order, in chunks flushed as soon as they reach
      the cap: only the last message says nothing follows, and only the first resets. */
  ghost predicate Splits(wire: seq<Update>, items: seq<Item>, reset: bool, cap: nat) {
    && wire != []
    && Flat(wire) == items
    && (forall i :: 0 <= i < |wire| ==> wire[i].more == (i < |wire| - 1) && wire[i].reset == (reset && i == 0))
    && (forall i :: 0 <= i < |wire| - 1 ==> Filled(Items(wire[i].patch), cap))
    && Below(Items(wire[|wire| - 1].patch), cap)
  }

  /** The messages flushed so far, every one of them announcing more. */
  ghost predicate Flushed(wire: seq<Update>, reset: bool, cap: nat) {
    && (forall i :: 0 <= i < |wire| ==> wire[i].more && wire[i].reset == (reset && i == 0))
    && (forall i :: 0 <= i < |wire| ==> Filled(Items(wire[i].patch), cap))
  }

  /** The sending state between two items: what was flushed, and the chunk being built. */
  ghost predicate Building(wire: seq<Update>, chunk: ManifestPatch, est: nat, sent: seq<Item>, reset: bool, cap: nat) {
    && Flushed(wire, reset, cap)
    && Flat(wire) + Items(chunk) == sent
    && est == Cost(Items(chunk)) && Below(Items(chunk), cap)
  }

  lemma FlushWhenFull(wire: seq<Update>, before: ManifestPatch, after: ManifestPatch, est: nat, sent: seq<Item>,
                      x: Item, reset: bool, cap: nat)
    requires Building(wire, before, est, sent, reset, cap) && Items(after) == Items(before) + [x]
    ensures est + ItemCost(x) < cap ==> Building(wire, after, est + ItemCost(x), sent + [x], reset, cap)
    ensures cap <= est + ItemCost(x) ==>
              Building(wire + [Update(reset && wire == [], true, after)], ManifestPatch([], []), 0, sent + [x], reset, cap)
  {
    assert Flat(wire) + (Items(before) + [x]) == (Flat(wire) + Items(before)) + [x];
    if cap <= est + ItemCost(x) {
      FlushedOn(wire, after, reset, cap);
      FlatSnoc(wire, Update(reset && wire == [], true, after));
      assert (Items(before) + [x])[..|Items(before)|] == Items(before);
      assert Items(ManifestPatch([], [])) == [];
    }
    hide Cost, Flat, Items, Flushed;
  }

  lemma FlushedOn(wire: seq<Update>, chunk: ManifestPatch, reset: bool, cap: nat)
    requires Flushed(wire, reset, cap) && Filled(Items(chunk), cap)
    ensures Flushed(wire + [Update(reset && wire == [], true, chunk)], reset, cap)
  {
    hide Items, Filled;
  }

  lemma FlatSnoc(wire: seq<Update>, u: Update)
    ensures Flat(wire + [u]) == Flat(wire) + Items(u.patch)
  {
    assert (wire + [u])[..|wire|] == wire;
  }

  lemma FinalFlush(wire: seq<Update>, chunk: ManifestPatch, est: nat, sent: seq<Item>, reset: bool, cap: nat)
    requires Building(wire, chunk, est, sent, reset, cap)
    ensures Splits(wire + [Update(reset && wire == [], false, chunk)], sent, reset, cap)
  {
    FlatSnoc(wire, Update(reset && wire == [], false, chunk));
    hide Cost, Flat, Items, Filled;
  }

  /** Pack a patch into messages of about cap bytes. */
  method SendUpdate(patch: ManifestPatch, reset: bool, cap: nat) returns (wire: seq<Update>)
    ensures Splits(wire, Items(patch), reset, cap)
  {
    hide Building, Splits, Cost, Flat;
    wire := [];
    var chunk, est: nat := ManifestPatch([], []), 0;
    NothingBuilt(reset, cap);
    assert Puts(patch.upserts[..0]) == [];
    for i := 0 to |patch.upserts|
      invariant chunk.removed == []
      invariant Building(wire, chunk, est, Puts(patch.upserts[..i]), reset, cap)
    {
      var e := patch.upserts[i];
      FlushWhenFull(wire, chunk, chunk.(upserts := chunk.upserts + [e]), est, Puts(patch.upserts[..i]),
                    Put(e.0, e.1), reset, cap);
      assert Puts(patch.upserts[..i + 1]) == Puts(patch.upserts[..i]) + [Put(e.0, e.1)];
      chunk := chunk.(upserts := chunk.upserts + [e]);
      est := est + ENTRY_FIXED_BYTES + |e.0|;
      if est >= cap {
        wire := wire + [Update(reset && wire == [], true, chunk)];
        chunk, est := ManifestPatch([], []), 0;
      }
    }
    ghost var puts := Puts(patch.upserts);
    assert patch.upserts[..|patch.upserts|] == patch.upserts;
    assert puts + Drops(patch.removed[..0]) == puts;
    for i := 0 to |patch.removed|
      invariant Building(wire, chunk, est, puts + Drops(patch.removed[..i]), reset, cap)
    {
      var p := patch.removed[i];
      FlushWhenFull(wire, chunk, chunk.(removed := chunk.removed + [p]), est, puts + Drops(patch.removed[..i]),
                    Drop(p), reset, cap);
      assert puts + Drops(patch.removed[..i + 1]) == puts + Drops(patch.removed[..i]) + [Drop(p)];
      chunk := chunk.(removed := chunk.removed + [p]);
      est := est + 2 + |p|;
      if est >= cap {
        wire := wire + [Update(reset && wire == [], true, chunk)];
        chunk, est := ManifestPatch([], []), 0;
      }
    }
    assert patch.removed[..|patch.removed|] == patch.removed;
    FinalFlush(wire, chunk, est, Items(patch), reset, cap);
    wire := wire + [Update(reset && wire == [], false, chunk)];
  }

  lemma NothingBuilt(reset: bool, cap: nat)
    ensures Building([], ManifestPatch([], []), 0, [], reset, cap)
  {
  }

  // ----- How big the messages are -----------------------------------------------

  /** A message on the wire: folder tag, opcode, flags, patch. */
  function MessageBytes(tag: u32, op: byte, u: Update): Bytes {
    Be(tag, 4) + [op] + [(if u.reset then 1 else 0) + (if u.more then 2 else 0)] + EncodePatch(u.patch)
  }

  lemma {:induction false} EntriesCost(es: seq<Entry>)
    ensures |EncodeEntries(es)| == Cost(Puts(es))
  {
    if es != [] {
      var n := |es| - 1;
      EntriesCost(es[..n]);
      EncodeEntriesSnoc(es[..n], es[n]);
      assert es == es[..n] + [es[n]];
      assert Puts(es)[..n] == Puts(es[..n]);
    }
  }

  lemma {:induction false} PathsCost(ps: seq<Path>)
    ensures |EncodePaths(ps)| == Cost(Drops(ps))
  {
    if ps != [] {
      var n := |ps| - 1;
      PathsCost(ps[..n]);
      EncodePathsSnoc(ps[..n], ps[n]);
      assert ps == ps[..n] + [ps[n]];
      assert Drops(ps)[..n] == Drops(ps[..n]);
    }
  }

  /** The byte estimate the splitter paces by is exact. */
  lemma EstimateIsExact(tag: u32, op: byte, u: Update)
    ensures |MessageBytes(tag, op, u)| == 14 + Cost(Items(u.patch))
  {
    EntriesCost(u.patch.upserts);
    PathsCost(u.patch.removed);
    CostOfConcat(Puts(u.patch.upserts), Drops(u.patch.removed));
  }

  /** A cap of zero flushes every item, as a cap of one does. */
  function AtLeastOne(cap: nat): nat {
    if cap == 0 then 1 else cap
  }

  /** No message is larger than the cap plus one entry: 13 bytes of header and flags,
      54 of fixed fields, and the path. */
  lemma MessagesAreBounded(wire: seq<Update>, items: seq<Item>, reset: bool, cap: nat, i: nat, longest: nat, tag: u32, op: byte)
    requires Splits(wire, items, reset, cap) && i < |wire|
    requires forall x :: x in items ==> |x.path| <= longest
    ensures |MessageBytes(tag, op, wire[i])| <= AtLeastOne(cap) + 67 + longest
  {
    EstimateIsExact(tag, op, wire[i]);
    var xs := Items(wire[i].patch);
    if i < |wire| - 1 {
      assert Filled(xs, cap);
      FilledCost(xs, cap);
      ItemsAreSent(wire, i, xs[|xs| - 1]);
      assert |xs[|xs| - 1].path| <= longest;
    } else {
      assert Below(xs, cap);
      assert Cost(xs) <= AtLeastOne(cap);
    }
    hide *;
  }

  lemma FilledCost(xs: seq<Item>, cap: nat)
    requires Filled(xs, cap)
    ensures Cost(xs) < AtLeastOne(cap) + ENTRY_FIXED_BYTES + |xs[|xs| - 1].path|
  {
  }

  lemma {:induction false} ItemsAreSent(wire: seq<Update>, i: nat, x: Item)
    requires i < |wire| && x in Items(wire[i].patch)
    ensures x in Flat(wire)
  {
    if i < |wire| - 1 {
      ItemsAreSent(wire[..|wire| - 1], i, x);
    }
  }

  /** There are at most as many messages as full caps in the update, and one. */
  lemma MessagesAreFew(wire: seq<Update>, items: seq<Item>, reset: bool, cap: nat)
    requires Splits(wire, items, reset, cap)
    ensures (|wire| - 1) * cap <= Cost(items)
  {
    var full := wire[..|wire| - 1];
    assert forall i :: 0 <= i < |full| ==> full[i] == wire[i];
    FullChunksCost(full, cap);
    hide Filled, Cost;
    CostOfConcat(Flat(full), Items(wire[|wire| - 1].patch));
  }

  lemma {:induction false} FullChunksCost(wire: seq<Update>, cap: nat)
    requires forall i :: 0 <= i < |wire| ==> Filled(Items(wire[i].patch), cap)
    ensures |wire| * cap <= Cost(Flat(wire))
  {
    if wire != [] {
      var n := |wire| - 1;
      FullChunksCost(wire[..n], cap);
      assert cap <= Cost(Items(wire[n].patch)) by { assert Filled(Items(wire[n].patch), cap); }
      CostOfConcat(Flat(wire[..n]), Items(wire[n].patch));
      assert Flat(wire) == Flat(wire[..n]) + Items(wire[n].patch);
      hide *;
      OneMoreCap(n, cap);
    }
  }

  lemma OneMoreCap(n: nat, cap: nat)
    ensures (n + 1) * cap == n * cap + cap
  {
  }
}
