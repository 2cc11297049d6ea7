/** Advertising as a running system: a writer that changes the local manifest and then
    bumps its version, an advertiser that reads the version and then copies the manifest,
    a FIFO channel, and the receiving session. */
module AdvertSystem {
  import opened Types
  import opened Manifests
  import opened Codec
  import opened Chunking
  import opened Advert

  /** The sending half of a session. */
  datatype Sender = Sender(lastSent: Tree, valid: bool, lastVersion: nat, pending: bool)

  /** Nothing has changed since the last advertisement, by the version alone. */
  predicate UpToDate(snd: Sender, version: nat) {
    snd.valid && version == snd.lastVersion
  }

  /** The patch an advertisement carries: the whole tree the first time, then the
      difference from what the peer last heard. */
  ghost predicate IsUpdate(patch: ManifestPatch, snd: Sender, local: Tree) {
    if snd.valid then IsDiff(snd.lastSent, local, patch) else patch == ManifestPatch(EntriesOf(local), [])
  }

  /** What one advertisement of local does: nothing goes out when there is no difference;
      otherwise local becomes what the peer last heard. */
  ghost predicate Advertises(snd: Sender, local: Tree, cap: nat, snd': Sender, wire: seq<Update>) {
    if snd.valid && snd.lastSent == local then wire == [] && snd' == snd.(pending := false)
    else
      && snd' == snd.(lastSent := local, valid := true, pending := false)
      && exists patch :: IsUpdate(patch, snd, local) && Splits(wire, Items(patch), !snd.valid, cap)
  }

  /** The whole tree, or the difference from what was sent last. */
  method UpdateFor(lastSent: Tree, lastSentValid: bool, local: Tree, ghost snd: Sender) returns (patch: ManifestPatch)
    requires lastSent == snd.lastSent && lastSentValid == snd.valid
    ensures IsUpdate(patch, snd, local)
    ensures lastSentValid ==> (patch.Empty() <==> lastSent == local)
  {
    if !lastSentValid {
      patch := ManifestPatch(EntriesOf(local), []);
    } else {
      patch := DiffManifests(lastSent, local);
      hide IsDiff;
      DiffIsMinimal(lastSent, local, patch, patch);
    }
  }

  lemma NothingToSend(snd: Sender, local: Tree, cap: nat)
    requires snd.valid && snd.lastSent == local
    ensures Advertises(snd, local, cap, snd.(pending := false), [])
  {
  }

  lemma UpdateSent(snd: Sender, local: Tree, cap: nat, patch: ManifestPatch, wire: seq<Update>)
    requires IsUpdate(patch, snd, local) && (snd.valid ==> snd.lastSent != local)
    requires Splits(wire, Items(patch), !snd.valid, cap)
    ensures Advertises(snd, local, cap, snd.(lastSent := local, valid := true, pending := false), wire)
  {
    hide IsUpdate, Splits;
  }

  // ----- The session and service objects ----------------------------------------

  class SyncService {
    var local: Tree
    var base: Tree
    var manifestVersion: nat

    constructor ()
      ensures local == map[] && base == map[] && manifestVersion == 0
    {
      local, base, manifestVersion := map[], map[], 0;
    }

    /** The daemon's rescan step; an empty patch does not even bump the version. */
    method ApplyLocalPatch(patch: ManifestPatch)
      modifies this
      ensures local == ApplyPatch(old(local), patch) && base == old(base)
      ensures manifestVersion == old(manifestVersion) + (if patch.Empty() then 0 else 1)
    {
      if patch.Empty() {
        assert Upsert(local, []) == local && Elements([]) == {};
        return;
      }
      var m := new Manifest(local);
      m.Apply(patch);
      local := m.entries;
      manifestVersion := manifestVersion + 1;
    }
  }

  class SyncSession {
    var remote: Tree
    var haveRemote: bool
    var remoteVersion: nat
    var staging: Tree
    var stagingActive: bool
    var lastSent: Tree
    var lastSentValid: bool
    var lastSentVersion: nat
    var advertisePending: bool

    constructor ()
      ensures View() == NOTHING_HEARD && Sending() == Sender(map[], false, 0, false)
    {
      remote, haveRemote, remoteVersion, staging, stagingActive := map[], false, 0, map[], false;
      lastSent, lastSentValid, lastSentVersion, advertisePending := map[], false, 0, false;
    }

    ghost function View(): PeerView
      reads this
    {
      PeerView(remote, haveRemote, remoteVersion, staging, stagingActive)
    }

    ghost function Sending(): Sender
      reads this
    {
      Sender(lastSent, lastSentValid, lastSentVersion, advertisePending)
    }

    method HandleManifestUpdate(u: Update, safe: Path -> bool)
      requires !stagingActive ==> staging == map[]
      modifies this
      ensures View() == Receive(old(View()), u, safe) && Sending() == old(Sending())
      ensures !stagingActive ==> staging == map[]
    {
      var patch := Sanitize(u.patch, safe);
      if u.reset {
        staging := map[];
        stagingActive := true;
      }
      if stagingActive {
        staging := ApplyPatch(staging, patch);
        if u.more {
          return;
        }
        remote := staging;
        staging := map[];
        stagingActive := false;
      } else if u.more {
        staging := remote;
        stagingActive := true;
        staging := ApplyPatch(staging, patch);
        return;
      } else {
        remote := ApplyPatch(remote, patch);
      }
      haveRemote := true;
      remoteVersion := remoteVersion + 1;
    }

    method AdvertiseLocked(service: SyncService, cap: nat) returns (wire: seq<Update>)
      modifies this
      ensures View() == old(View())
      ensures if UpToDate(old(Sending()), service.manifestVersion) then
                wire == [] && Sending() == old(Sending()).(pending := false)
              else
                Advertises(old(Sending()).(lastVersion := service.manifestVersion), service.local, cap, Sending(), wire)
    {
      var version := service.manifestVersion;
      if lastSentValid && version == lastSentVersion {
        advertisePending := false;
        return [];
      }
      hide Advertises, IsUpdate, Splits, Items;
      lastSentVersion := version;
      var local := service.local;
      ghost var snd := old(Sending()).(lastVersion := version);
      var patch := UpdateFor(lastSent, lastSentValid, local, snd);
      var reset := !lastSentValid;
      if !reset && patch.Empty() {
        advertisePending := false;
        NothingToSend(snd, local, cap);
        return [];
      }
      wire := SendUpdate(patch, reset, cap);
      lastSent := local;
      lastSentValid := true;
      advertisePending := false;
      UpdateSent(snd, local, cap, patch, wire);
    }
  }

  // ----- The system -------------------------------------------------------------

  /** local is what the writer has put in place; committed is its value as of the last
      version bump, different only while the writer is between the two. snapshots lists
      every tree ever advertised. */
  datatype System = System(local: Tree, committed: Tree, version: nat, writing: bool,
                           sender: Sender, copying: bool,
                           channel: seq<Update>, view: PeerView, snapshots: seq<Tree>)

  datatype Step =
    | Mutate(t: Tree)       // the writer, under the manifest lock, changes the tree
    | Bump                  // and then the version
    | ReadVersion           // the advertiser reads the version, without the lock
    | CopyAndSend(wire: seq<Update>)  // and, under the lock, copies the tree and sends
    | Deliver               // the channel hands over its oldest message

  ghost predicate Initial(s: System) {
    && s.local == s.committed && !s.writing && !s.copying
    && !s.sender.valid && s.sender.lastVersion <= s.version
    && s.channel == [] && s.view == NOTHING_HEARD && s.snapshots == []
  }

  ghost predicate Next(s: System, step: Step, s': System, safe: Path -> bool, cap: nat) {
    match step
    case Mutate(t) => !s.writing && s' == s.(local := t, writing := true)
    case Bump => s.writing && s' == s.(committed := s.local, version := s.version + 1, writing := false)
    case ReadVersion =>
      && !s.copying
      && s' == if UpToDate(s.sender, s.version) then s.(sender := s.sender.(pending := false))
               else s.(sender := s.sender.(lastVersion := s.version), copying := true)
    case CopyAndSend(wire) =>
      && s.copying && !s.writing
      && Advertises(s.sender, s.local, cap, s'.sender, wire)
      && s' == s.(sender := s'.sender, copying := false, channel := s.channel + wire,
                  snapshots := if wire == [] then s.snapshots else s.snapshots + [s.local])
    case Deliver =>
      && s.channel != []
      && s' == s.(view := Receive(s.view, s.channel[0], safe), channel := s.channel[1..])
  }

  ghost predicate Run(states: seq<System>, steps: seq<Step>, safe: Path -> bool, cap: nat) {
    && |states| == |steps| + 1 && Initial(states[0])
    && forall i :: 0 <= i < |steps| ==> Next(states[i], steps[i], states[i + 1], safe, cap)
  }

  /** What an advertisement costs: after the first, one item for each path that differs from
      what the peer last heard, and no reset. */
  lemma UpdateIsTheDifference(snd: Sender, local: Tree, cap: nat, snd': Sender, wire: seq<Update>)
    requires Advertises(snd, local, cap, snd', wire) && snd.valid
    ensures |Flat(wire)| == |Differing(snd.lastSent, local)|
    ensures forall i :: 0 <= i < |wire| ==> !wire[i].reset
  {
    if snd.lastSent == local {
      DiffNothing(local);
    } else {
      var patch :| IsUpdate(patch, snd, local) && Splits(wire, Items(patch), !snd.valid, cap);
      DiffNamesDiffering(snd.lastSent, local, patch);
      hide IsDiff, Differing;
    }
  }

  lemma DiffNothing(t: Tree)
    ensures Differing(t, t) == {}
  {
  }

  /** What was just advertised is not advertised again until something changes: read, copied and
      sent with no change between, the version gate is closed. */
  lemma AdvertisedIsUpToDate(s: System, t: System, u: System, wire: seq<Update>, safe: Path -> bool, cap: nat)
    requires Next(s, ReadVersion, t, safe, cap) && t.copying && Next(t, CopyAndSend(wire), u, safe, cap)
    ensures UpToDate(u.sender, u.version)
  {
    hide Splits, IsUpdate;
  }

  /** The receiver's tree is exactly the safe part of the snapshot its version counts. */
  ghost predicate ShowsSnapshot(v: PeerView, snapshots: seq<Tree>, safe: Path -> bool) {
    && v.version <= |snapshots|
    && v.have == (v.version > 0)
    && (v.version > 0 ==> v.remote == Safe(snapshots[v.version - 1], safe))
  }

  ghost predicate Gate(s: System) {
    && s.sender.lastVersion <= s.version
    && (!s.writing ==> s.committed == s.local)
    && (UpToDate(s.sender, s.version) && !s.copying ==> s.sender.lastSent == s.committed)
  }

  ghost predicate Sent(s: System) {
    && (s.sender.valid <==> s.snapshots != [])
    && (s.sender.valid ==> s.sender.lastSent == s.snapshots[|s.snapshots| - 1])
  }

  /** However much of the channel has been delivered, the receiver shows a snapshot; all
      of it delivered, it shows the last one. */
  ghost predicate InFlight(s: System, safe: Path -> bool) {
    && (forall k :: 0 <= k <= |s.channel| ==> ShowsSnapshot(Replay(s.view, s.channel[..k], safe), s.snapshots, safe))
    && !Replay(s.view, s.channel, safe).staged
    && Replay(s.view, s.channel, safe).version == |s.snapshots|
  }

  ghost predicate Invariant(s: System, safe: Path -> bool) {
    Gate(s) && Sent(s) && InFlight(s, safe)
  }

  lemma UpdateYieldsLocal(patch: ManifestPatch, snd: Sender, local: Tree)
    requires IsUpdate(patch, snd, local)
    ensures ApplyItems(Origin(!snd.valid, snd.lastSent), Items(patch)) == local
  {
    PatchIsItems(Origin(!snd.valid, snd.lastSent), patch);
    if snd.valid {
      DiffIsExact(snd.lastSent, local, patch);
    } else {
      FullPatchIsTree(local);
    }
  }

  lemma FullPatchIsTree(t: Tree)
    ensures ApplyPatch(map[], ManifestPatch(EntriesOf(t), [])) == t
  {
    var es := EntriesOf(t);
    ListedEntries(t);
    forall p
      ensures Find(Upsert(map[], es), p) == Find(t, p)
    {
      UpsertFinds(map[], es, p);
      if p in t {
        var i :| 0 <= i < |Keys(es)| && Keys(es)[i] == p;
        assert es[i].0 == p;
      }
    }
    SameTree(Upsert(map[], es), t);
    assert Elements([]) == {};
  }

  lemma ReadyToSend(s: System, safe: Path -> bool)
    requires Sent(s) && InFlight(s, safe)
    ensures var v := Replay(s.view, s.channel, safe);
            && Ready(v, s.sender.lastSent, !s.sender.valid, safe)
            && ShowsSnapshot(v, s.snapshots, safe)
            && v.version == |s.snapshots|
  {
    assert s.channel[..|s.channel|] == s.channel;
    assert ShowsSnapshot(Replay(s.view, s.channel[..|s.channel|], safe), s.snapshots, safe);
  }

  lemma StillShows(v: PeerView, w: PeerView, sent: Tree, reset: bool, done: seq<Update>, snapshots: seq<Tree>, t: Tree,
                   safe: Path -> bool)
    requires ShowsSnapshot(v, snapshots, safe) && PartWay(v, w, sent, reset, done, safe)
    ensures ShowsSnapshot(w, snapshots + [t], safe)
  {
  }

  lemma CommitShows(v: PeerView, snapshots: seq<Tree>, t: Tree, safe: Path -> bool)
    requires v.version == |snapshots|
    ensures var w := Commit(v, Safe(t, safe));
            ShowsSnapshot(w, snapshots + [t], safe) && !w.staged && w.version == |snapshots| + 1
  {
  }

  lemma EarlierShows(s: System, k: nat, t: Tree, safe: Path -> bool)
    requires InFlight(s, safe) && k <= |s.channel|
    ensures ShowsSnapshot(Replay(s.view, s.channel[..k], safe), s.snapshots + [t], safe)
  {
    assert ShowsSnapshot(Replay(s.view, s.channel[..k], safe), s.snapshots, safe);
  }

  /** Each prefix of the extended channel still shows a snapshot: an old prefix what it
      showed, a partial update what the whole old channel shows, all of it the new tree. */
  lemma SendKeepsPrefix(s: System, wire: seq<Update>, items: seq<Item>, safe: Path -> bool, cap: nat, k: nat)
    requires Sent(s) && InFlight(s, safe) && k <= |s.channel + wire|
    requires Splits(wire, items, !s.sender.valid, cap)
    requires ApplyItems(Origin(!s.sender.valid, s.sender.lastSent), items) == s.local
    ensures ShowsSnapshot(Replay(s.view, (s.channel + wire)[..k], safe), s.snapshots + [s.local], safe)
    ensures k == |s.channel + wire| ==>
              var w := Replay(s.view, s.channel + wire, safe); !w.staged && w.version == |s.snapshots| + 1
  {
    hide *;
    var v, n, reset, sent := Replay(s.view, s.channel, safe), |s.channel|, !s.sender.valid, s.sender.lastSent;
    SplitsIsNonempty(wire, items, reset, cap);
    ReadyToSend(s, safe);
    if k <= n {
      assert (s.channel + wire)[..k] == s.channel[..k];
      EarlierShows(s, k, s.local, safe);
    } else if k < |s.channel + wire| {
      assert (s.channel + wire)[..k] == s.channel + wire[..k - n];
      ReplayConcat(s.view, s.channel, wire[..k - n], safe);
      PartialUpdateIsInvisible(v, wire, items, reset, cap, sent, safe, k - n);
      StillShows(v, Replay(v, wire[..k - n], safe), sent, reset, wire[..k - n], s.snapshots, s.local, safe);
    } else {
      assert (s.channel + wire)[..k] == s.channel + wire;
      ReplayConcat(s.view, s.channel, wire, safe);
      WholeUpdateCommits(v, wire, items, reset, cap, sent, safe);
      CommitShows(v, s.snapshots, s.local, safe);
    }
  }

  lemma SendKeepsInFlight(s: System, wire: seq<Update>, items: seq<Item>, safe: Path -> bool, cap: nat)
    requires Sent(s) && InFlight(s, safe)
    requires Splits(wire, items, !s.sender.valid, cap)
    requires ApplyItems(Origin(!s.sender.valid, s.sender.lastSent), items) == s.local
    ensures InFlight(s.(channel := s.channel + wire, snapshots := s.snapshots + [s.local]), safe)
  {
    forall k | 0 <= k <= |s.channel + wire|
      ensures ShowsSnapshot(Replay(s.view, (s.channel + wire)[..k], safe), s.snapshots + [s.local], safe)
    {
      SendKeepsPrefix(s, wire, items, safe, cap, k);
    }
    SendKeepsPrefix(s, wire, items, safe, cap, |s.channel + wire|);
  }

  lemma ReplayCons(v: PeerView, u: Update, rest: seq<Update>, safe: Path -> bool)
    ensures Replay(v, [u] + rest, safe) == Replay(Receive(v, u, safe), rest, safe)
  {
    assert [u][..0] == [];
    assert Replay(v, [u], safe) == Receive(v, u, safe);
    hide *;
    ReplayConcat(v, [u], rest, safe);
  }

  /** What the rest of the channel shows after its first message is what all of it did before. */
  lemma FirstDelivered(s: System, k: nat, safe: Path -> bool)
    requires s.channel != [] && k < |s.channel|
    ensures Replay(Receive(s.view, s.channel[0], safe), s.channel[1..][..k], safe) == Replay(s.view, s.channel[..k + 1], safe)
  {
    hide *;
    assert s.channel[..k + 1] == [s.channel[0]] + s.channel[1..][..k];
    ReplayCons(s.view, s.channel[0], s.channel[1..][..k], safe);
  }

  lemma DeliverKeepsInFlight(s: System, safe: Path -> bool)
    requires InFlight(s, safe) && s.channel != []
    ensures InFlight(s.(view := Receive(s.view, s.channel[0], safe), channel := s.channel[1..]), safe)
  {
    hide Replay, Receive, Safe, ShowsSnapshot;
    var n := |s.channel|;
    forall k | 0 <= k < n
      ensures Replay(Receive(s.view, s.channel[0], safe), s.channel[1..][..k], safe) == Replay(s.view, s.channel[..k + 1], safe)
    {
      FirstDelivered(s, k, safe);
    }
    assert s.channel[1..][..n - 1] == s.channel[1..] && s.channel[..n] == s.channel;
  }

  lemma StepKeepsInvariant(s: System, step: Step, s': System, safe: Path -> bool, cap: nat)
    requires Invariant(s, safe) && Next(s, step, s', safe, cap)
    ensures Invariant(s', safe)
  {
    hide ShowsSnapshot, Splits, Replay, Receive, IsUpdate;
    match step
    case CopyAndSend(wire) =>
      if s.sender.valid && s.sender.lastSent == s.local {
        assert s.channel + wire == s.channel;
      } else {
        var patch :| IsUpdate(patch, s.sender, s.local) && Splits(wire, Items(patch), !s.sender.valid, cap);
        UpdateYieldsLocal(patch, s.sender, s.local);
        SendKeepsInFlight(s, wire, Items(patch), safe, cap);
        SplitsIsNonempty(wire, Items(patch), !s.sender.valid, cap);
      }
    case Deliver => DeliverKeepsInFlight(s, safe);
    case _ =>
  }

  lemma {:induction false} RunsKeepInvariant(states: seq<System>, steps: seq<Step>, safe: Path -> bool, cap: nat, i: nat)
    requires Run(states, steps, safe, cap) && i < |states|
    ensures Invariant(states[i], safe)
  {
    if i == 0 {
      assert Replay(states[0].view, [], safe) == NOTHING_HEARD;
    } else {
      RunsKeepInvariant(states, steps, safe, cap, i - 1);
      StepKeepsInvariant(states[i - 1], steps[i - 1], states[i], safe, cap);
    }
  }

  /** Over every run and at every moment: the receiver's tree is exactly the safe part of
      one complete tree the sender advertised, the one its version counts, and never a
      partial one; and replaying what is still in flight leads to the last one sent. */
  lemma ReceiverShowsOneCompleteTree(states: seq<System>, steps: seq<Step>, safe: Path -> bool, cap: nat, i: nat)
    requires Run(states, steps, safe, cap) && i < |states|
    ensures var s := states[i];
            && s.view.version <= |s.snapshots|
            && (s.view.have ==> s.view.version > 0 && s.view.remote == Safe(s.snapshots[s.view.version - 1], safe))
            && (s.sender.valid ==> Replay(s.view, s.channel, safe).remote == Safe(s.sender.lastSent, safe))
  {
    var s := states[i];
    RunsKeepInvariant(states, steps, safe, cap, i);
    assert s.channel[..0] == [] && s.channel[..|s.channel|] == s.channel;
    assert ShowsSnapshot(Replay(s.view, s.channel[..0], safe), s.snapshots, safe);
    assert ShowsSnapshot(Replay(s.view, s.channel[..|s.channel|], safe), s.snapshots, safe);
  }

  /** The receiver moves through the snapshots in order and never back. */
  lemma {:induction false} ReceiverNeverGoesBack(states: seq<System>, steps: seq<Step>, safe: Path -> bool, cap: nat, i: nat, j: nat)
    requires Run(states, steps, safe, cap) && i <= j < |states|
    ensures states[i].view.version <= states[j].view.version && states[i].snapshots <= states[j].snapshots
  {
    if i < j {
      ReceiverNeverGoesBack(states, steps, safe, cap, i, j - 1);
      assert Next(states[j - 1], steps[j - 1], states[j], safe, cap);
    }
  }

  /** The version gate is sound although the version is read outside the lock and before
      the copy: whenever the advertiser would skip, the peer has already been sent the
      tree as of the last completed mutation. */
  lemma SkippedAdvertisementIsSound(states: seq<System>, steps: seq<Step>, safe: Path -> bool, cap: nat, i: nat)
    requires Run(states, steps, safe, cap) && i < |states|
    requires !states[i].copying && UpToDate(states[i].sender, states[i].version)
    ensures states[i].sender.lastSent == states[i].committed
    ensures !states[i].writing ==> states[i].sender.lastSent == states[i].local
  {
    RunsKeepInvariant(states, steps, safe, cap, i);
  }

  /** Nothing is lost: at rest, with the gate closed and the channel drained, the peer
      knows exactly the safe part of the local tree. */
  lemma AtRestThePeerIsCurrent(states: seq<System>, steps: seq<Step>, safe: Path -> bool, cap: nat, i: nat)
    requires Run(states, steps, safe, cap) && i < |states|
    requires var s := states[i];
             s.channel == [] && !s.writing && !s.copying && UpToDate(s.sender, s.version)
    ensures states[i].view.have && states[i].view.remote == Safe(states[i].local, safe)
  {
    SkippedAdvertisementIsSound(states, steps, safe, cap, i);
    ReceiverShowsOneCompleteTree(states, steps, safe, cap, i);
    RunsKeepInvariant(states, steps, safe, cap, i);
    var s := states[i];
    assert s.channel[..0] == [] && Replay(s.view, [], safe) == s.view;
    assert ShowsSnapshot(Replay(s.view, s.channel[..0], safe), s.snapshots, safe);
  }
}
