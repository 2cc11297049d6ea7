/** What any run of messages and disk errors does to the receiver's files and to the pull
    reservations it answers for. */
module Landings {
  import opened Types
  import opened FileTransfer

  // ----- What reaches the files -------------------------------------------------

  /** The digest of every file on its way in covers exactly its temporary file. */
  ghost predicate Digested(r: Receiver) {
    forall xid :: xid in r.incoming ==> r.incoming[xid].absorbed == r.incoming[xid].temp
  }

  lemma StepKeepsDigest(r: Receiver, m: Message, io: Io, sha256: Bytes -> Hash, safe: Path -> bool)
    requires Digested(r)
    ensures Digested(Handle(r, m, io, sha256, safe))
  {
  }

  /** An end whose announced hash the digest of its transfer meets. */
  predicate Verifies(r: Receiver, e: Event, sha256: Bytes -> Hash) {
    e.message.FileEnd? && e.message.xid in r.incoming && sha256(r.incoming[e.message.xid].absorbed) == e.message.hash
  }

  /** It puts a verified file in place at p. */
  predicate Lands(r: Receiver, e: Event, sha256: Bytes -> Hash, p: Path) {
    Verifies(r, e, sha256) &&
    var t := r.incoming[e.message.xid];
    t.path == p && t.named && e.io.Fine?
  }

  /** It fails to, and has removed the copy that was at p. */
  predicate Loses(r: Receiver, e: Event, sha256: Bytes -> Hash, p: Path) {
    Verifies(r, e, sha256) &&
    var t := r.incoming[e.message.xid];
    t.path == p && LosesCopy(t, e.io)
  }

  /** One message, any disk: it lands verified content, or loses a copy in trying to, or
      leaves the path alone; a loss leaves the manifest as it was. */
  lemma OnlyVerifiedContentLands(r: Receiver, e: Event, sha256: Bytes -> Hash, safe: Path -> bool, p: Path)
    requires Digested(r)
    ensures var r' := Handle(r, e.message, e.io, sha256, safe);
            && (p in r'.files <==> Lands(r, e, sha256, p) || (p in r.files && !Loses(r, e, sha256, p)))
            && (Lands(r, e, sha256, p) ==>
                  && r'.files[p] == r.incoming[e.message.xid].temp
                  && sha256(r'.files[p]) == e.message.hash
                  && Find(r'.local, p) == Some(PlacedMeta(r.incoming[e.message.xid], e.message.hash)))
            && (!Lands(r, e, sha256, p) ==> (p in r'.files ==> r'.files[p] == r.files[p]) && Find(r'.local, p) == Find(r.local, p))
  {
  }

  /** The state the k-th event of a run finds. */
  function Before(r0: Receiver, events: seq<Event>, k: nat, sha256: Bytes -> Hash, safe: Path -> bool): Receiver
    requires k <= |events|
  {
    HandleAll(r0, events[..k], sha256, safe)
  }

  predicate LandsAt(r0: Receiver, events: seq<Event>, k: nat, sha256: Bytes -> Hash, safe: Path -> bool, p: Path)
    requires k < |events|
  {
    Lands(Before(r0, events, k, sha256, safe), events[k], sha256, p)
  }

  predicate LosesAt(r0: Receiver, events: seq<Event>, k: nat, sha256: Bytes -> Hash, safe: Path -> bool, p: Path)
    requires k < |events|
  {
    Loses(Before(r0, events, k, sha256, safe), events[k], sha256, p)
  }

  lemma {:induction false} RunsKeepDigest(r0: Receiver, events: seq<Event>, sha256: Bytes -> Hash, safe: Path -> bool)
    requires Digested(r0)
    ensures Digested(HandleAll(r0, events, sha256, safe))
  {
    if events != [] {
      var before, e := events[..|events| - 1], events[|events| - 1];
      RunsKeepDigest(r0, before, sha256, safe);
      StepKeepsDigest(HandleAll(r0, before, sha256, safe), e.message, e.io, sha256, safe);
    }
  }

  /** Something happened that nothing later undid. */
  ghost predicate Stands(done: seq<bool>, undone: seq<bool>)
    requires |done| == |undone|
  {
    exists k :: 0 <= k < |done| && done[k] && forall j :: k < j < |undone| ==> !undone[j]
  }

  lemma StandsOn(done: seq<bool>, undone: seq<bool>, d: bool, u: bool)
    requires |done| == |undone|
    ensures Stands(done + [d], undone + [u]) <==> d || (Stands(done, undone) && !u)
    ensures true !in undone + [u] <==> true !in undone && !u
  {
    var done', undone' := done + [d], undone + [u];
    if d {
      assert done'[|done|];
    } else if Stands(done, undone) && !u {
      var k :| 0 <= k < |done| && done[k] && forall j :: k < j < |undone| ==> !undone[j];
      assert done'[k];
    } else if Stands(done', undone') {
      var k :| 0 <= k < |done'| && done'[k] && forall j :: k < j < |undone'| ==> !undone'[j];
      assert done[k] && !undone'[|undone|];
      forall j | k < j < |undone|
        ensures !undone[j]
      {
        assert undone'[j] == undone[j];
      }
    }
  }

  /** Which events land at p, and which lose the copy there. */
  ghost function Landing(r0: Receiver, events: seq<Event>, sha256: Bytes -> Hash, safe: Path -> bool, p: Path): (marks: seq<bool>)
    ensures |marks| == |events| && forall k :: 0 <= k < |events| ==> marks[k] == LandsAt(r0, events, k, sha256, safe, p)
  {
    seq(|events|, k requires 0 <= k < |events| => LandsAt(r0, events, k, sha256, safe, p))
  }

  ghost function Losing(r0: Receiver, events: seq<Event>, sha256: Bytes -> Hash, safe: Path -> bool, p: Path): (marks: seq<bool>)
    ensures |marks| == |events| && forall k :: 0 <= k < |events| ==> marks[k] == LosesAt(r0, events, k, sha256, safe, p)
  {
    seq(|events|, k requires 0 <= k < |events| => LosesAt(r0, events, k, sha256, safe, p))
  }

  lemma MarksOn(r0: Receiver, before: seq<Event>, e: Event, sha256: Bytes -> Hash, safe: Path -> bool, p: Path)
    ensures var r := HandleAll(r0, before, sha256, safe);
            && Landing(r0, before + [e], sha256, safe, p) == Landing(r0, before, sha256, safe, p) + [Lands(r, e, sha256, p)]
            && Losing(r0, before + [e], sha256, safe, p) == Losing(r0, before, sha256, safe, p) + [Loses(r, e, sha256, p)]
  {
    var events := before + [e];
    forall k | 0 <= k < |before|
      ensures events[..k] == before[..k] && events[k] == before[k]
    {
    }
    assert events[..|before|] == before;
    hide HandleAll, Lands, Loses;
  }

  /** Exactly when a file is there after any run of messages and errors: it landed and was
      not lost since, or it was there before and was never lost. */
  lemma {:induction false} PresentExactly(r0: Receiver, events: seq<Event>, sha256: Bytes -> Hash, safe: Path -> bool, p: Path)
    requires Digested(r0)
    ensures p in HandleAll(r0, events, sha256, safe).files <==>
            Stands(Landing(r0, events, sha256, safe, p), Losing(r0, events, sha256, safe, p)) ||
            (p in r0.files && true !in Losing(r0, events, sha256, safe, p))
  {
    if events != [] {
      var before, e := events[..|events| - 1], events[|events| - 1];
      PresentExactly(r0, before, sha256, safe, p);
      RunsKeepDigest(r0, before, sha256, safe);
      var r := HandleAll(r0, before, sha256, safe);
      OnlyVerifiedContentLands(r, e, sha256, safe, p);
      assert HandleAll(r0, events, sha256, safe) == Handle(r, e.message, e.io, sha256, safe);
      assert events == before + [e];
      hide *;
      MarksOn(r0, before, e, sha256, safe, p);
      StandsOn(Landing(r0, before, sha256, safe, p), Losing(r0, before, sha256, safe, p), Lands(r, e, sha256, p), Loses(r, e, sha256, p));
    }
  }

  ghost predicate Announced(events: seq<Event>, hash: Hash) {
    exists k :: 0 <= k < |events| && events[k].message.FileEnd? && events[k].message.hash == hash
  }

  lemma AnnouncedStays(events: seq<Event>, e: Event, hash: Hash)
    ensures Announced(events, hash) ==> Announced(events + [e], hash)
    ensures e.message.FileEnd? ==> Announced(events + [e], e.message.hash)
  {
    if Announced(events, hash) {
      var k :| 0 <= k < |events| && events[k].message.FileEnd? && events[k].message.hash == hash;
      assert (events + [e])[k] == events[k];
    }
    assert (events + [e])[|events|] == e;
  }

  /** The file and its entry are what they were. */
  ghost predicate Untouched(r0: Receiver, r: Receiver, p: Path) {
    p in r0.files && p in r.files && r.files[p] == r0.files[p] && Find(r.local, p) == Find(r0.local, p)
  }

  /** The file met an announced hash, which its entry records with the size written. */
  ghost predicate Verified(r: Receiver, events: seq<Event>, sha256: Bytes -> Hash, p: Path)
    requires p in r.files
  {
    && p in r.local && r.local[p].hash == sha256(r.files[p]) && r.local[p].size == |r.files[p]| % MOD64
    && Announced(events, r.local[p].hash)
  }

  /** For every message sequence whatsoever, with disk errors at any point: every file there
      is what it was, or content that met an announced hash. */
  lemma {:induction false} EveryRunIsVerified(r0: Receiver, events: seq<Event>, sha256: Bytes -> Hash, safe: Path -> bool, p: Path)
    requires Digested(r0)
    ensures var r := HandleAll(r0, events, sha256, safe);
            p in r.files ==> Untouched(r0, r, p) || Verified(r, events, sha256, p)
  {
    if events != [] {
      var before, e := events[..|events| - 1], events[|events| - 1];
      EveryRunIsVerified(r0, before, sha256, safe, p);
      RunsKeepDigest(r0, before, sha256, safe);
      var r := HandleAll(r0, before, sha256, safe);
      OnlyVerifiedContentLands(r, e, sha256, safe, p);
      assert events == before + [e];
      if p in r.local {
        AnnouncedStays(before, e, r.local[p].hash);
      }
      if e.message.FileEnd? {
        AnnouncedStays(before, e, e.message.hash);
      }
      hide Handle, Announced, Digested;
    }
  }

  // ----- What an unsafe path can come to ----------------------------------------

  /** No transfer that is open has an unsafe path. */
  ghost predicate OpenAreSafe(r: Receiver, safe: Path -> bool) {
    forall xid :: xid in r.incoming ==> safe(r.incoming[xid].path)
  }

  /** r' holds the file and the entry at p that r held. */
  ghost predicate SameAt(r: Receiver, r': Receiver, p: Path) {
    && (p in r'.files <==> p in r.files) && (p in r.files ==> r'.files[p] == r.files[p])
    && Find(r'.local, p) == Find(r.local, p)
  }

  lemma UnsafeStep(r: Receiver, e: Event, sha256: Bytes -> Hash, safe: Path -> bool, p: Path)
    requires OpenAreSafe(r, safe) && !safe(p)
    ensures var r' := Handle(r, e.message, e.io, sha256, safe);
            OpenAreSafe(r', safe) && SameAt(r, r', p)
  {
    match e.message
    case FileStart(_, _, _, _, _) => hide HandleLiteral, HandleCopy, HandleEnd;
    case FileLiteral(_, _) => hide HandleStart, HandleCopy, HandleEnd;
    case FileCopy(_, _, _) => hide HandleStart, HandleLiteral, HandleEnd;
    case FileEnd(_, _) => hide HandleStart, HandleLiteral, HandleCopy;
  }

  /** Whatever a peer sends and whatever the disk does, nothing is written, removed or recorded
      at a path the receiver's rule refuses, and no transfer to one is ever open. */
  lemma {:induction false} UnsafeIsNeverTouched(r0: Receiver, events: seq<Event>, sha256: Bytes -> Hash, safe: Path -> bool, p: Path)
    requires r0.incoming == map[] && !safe(p)
    ensures var r := HandleAll(r0, events, sha256, safe);
            OpenAreSafe(r, safe) && SameAt(r0, r, p)
  {
    if events != [] {
      var before, e := events[..|events| - 1], events[|events| - 1];
      UnsafeIsNeverTouched(r0, before, sha256, safe, p);
      UnsafeStep(HandleAll(r0, before, sha256, safe), e, sha256, safe, p);
      hide Handle, OpenAreSafe;
    }
  }

  /** A COPY for a transfer that has no base to copy from is passed over. */
  lemma CopyNeedsBase(r: Receiver, xid: nat, offset: nat, len: u32, io: Io, sha256: Bytes -> Hash, safe: Path -> bool)
    requires xid in r.incoming ==> !r.incoming[xid].isDelta
    ensures Handle(r, FileCopy(xid, offset, len), io, sha256, safe) == r
  {
  }

  // ----- How a transfer loses its name ------------------------------------------

  /** A start that takes the name from a transfer open on its xid, its own or the other's. */
  predicate TakesName(r: Receiver, e: Event, safe: Path -> bool, xid: nat) {
    e.message.FileStart? && e.message.xid == xid && xid in r.incoming && safe(e.message.path) && !(e.io == Fails(false))
  }

  predicate TakesNameAt(r0: Receiver, events: seq<Event>, k: nat, sha256: Bytes -> Hash, safe: Path -> bool, xid: nat)
    requires k < |events|
  {
    TakesName(Before(r0, events, k, sha256, safe), events[k], safe, xid)
  }

  /** Something happened, and since then it has held without a break. */
  ghost predicate Since(done: seq<bool>, held: seq<bool>)
    requires |held| == |done| + 1
  {
    exists k :: 0 <= k < |done| && done[k] && forall j :: k <= j < |held| ==> held[j]
  }

  lemma SinceOn(done: seq<bool>, held: seq<bool>, d: bool)
    requires |held| == |done| + 1
    ensures Since(done + [d], held + [true]) <==> held[|done|] && (d || Since(done, held))
  {
    var done', held' := done + [d], held + [true];
    if Since(done, held) {
      var k :| 0 <= k < |done| && done[k] && forall j :: k <= j < |held| ==> held[j];
      assert held[|done|] && done'[k];
    }
    if d && held[|done|] {
      assert done'[|done|];
    }
    if Since(done', held') {
      var k :| 0 <= k < |done'| && done'[k] && forall j :: k <= j < |held'| ==> held'[j];
      assert held'[|done|];
      if k < |done| {
        forall j | k <= j < |held|
          ensures held[j]
        {
          assert held'[j];
        }
        assert done[k];
      }
    }
  }

  /** Which events take the name on this xid, and when a transfer is open on it. */
  ghost function Taking(r0: Receiver, events: seq<Event>, sha256: Bytes -> Hash, safe: Path -> bool, xid: nat): (marks: seq<bool>)
    ensures |marks| == |events| && forall k :: 0 <= k < |events| ==> marks[k] == TakesNameAt(r0, events, k, sha256, safe, xid)
  {
    seq(|events|, k requires 0 <= k < |events| => TakesNameAt(r0, events, k, sha256, safe, xid))
  }

  ghost function Open(r0: Receiver, events: seq<Event>, sha256: Bytes -> Hash, safe: Path -> bool, xid: nat): (marks: seq<bool>)
    ensures |marks| == |events| + 1
    ensures forall k :: 0 <= k <= |events| ==> marks[k] == (xid in Before(r0, events, k, sha256, safe).incoming)
  {
    seq(|events| + 1, k requires 0 <= k <= |events| => xid in Before(r0, events, k, sha256, safe).incoming)
  }

  lemma OpenOn(r0: Receiver, before: seq<Event>, e: Event, sha256: Bytes -> Hash, safe: Path -> bool, xid: nat)
    ensures var r := HandleAll(r0, before, sha256, safe);
            && Taking(r0, before + [e], sha256, safe, xid) == Taking(r0, before, sha256, safe, xid) + [TakesName(r, e, safe, xid)]
            && Open(r0, before + [e], sha256, safe, xid) ==
               Open(r0, before, sha256, safe, xid) + [xid in HandleAll(r0, before + [e], sha256, safe).incoming]
            && Open(r0, before, sha256, safe, xid)[|before|] == (xid in r.incoming)
  {
    var events := before + [e];
    forall k | 0 <= k <= |before|
      ensures events[..k] == before[..k]
    {
    }
    assert events[..|before|] == before && events[..|events|] == events && before[..|before|] == before;
    hide HandleAll, TakesName;
  }

  lemma NameMoves(r: Receiver, e: Event, sha256: Bytes -> Hash, safe: Path -> bool, xid: nat)
    ensures var r' := Handle(r, e.message, e.io, sha256, safe);
            xid in r'.incoming ==>
              (!r'.incoming[xid].named <==>
                xid in r.incoming && (TakesName(r, e, safe, xid) || !r.incoming[xid].named))
  {
    match e.message
    case FileStart(_, _, _, _, _) => hide HandleLiteral, HandleCopy, HandleEnd;
    case FileLiteral(_, _) => hide HandleStart, HandleCopy, HandleEnd;
    case FileCopy(_, _, _) => hide HandleStart, HandleLiteral, HandleEnd;
    case FileEnd(_, _) => hide HandleStart, HandleLiteral, HandleCopy;
  }

  /** Exactly when an open transfer's file has lost its name: a start came on its xid while
      one was open, and one has been open ever since. */
  lemma {:induction false} NamelessExactly(r0: Receiver, events: seq<Event>, sha256: Bytes -> Hash, safe: Path -> bool, xid: nat)
    requires r0.incoming == map[] && xid in HandleAll(r0, events, sha256, safe).incoming
    ensures !HandleAll(r0, events, sha256, safe).incoming[xid].named <==>
            Since(Taking(r0, events, sha256, safe, xid), Open(r0, events, sha256, safe, xid))
  {
    if events != [] {
      var before, e := events[..|events| - 1], events[|events| - 1];
      var r := HandleAll(r0, before, sha256, safe);
      NameMoves(r, e, sha256, safe, xid);
      assert HandleAll(r0, events, sha256, safe) == Handle(r, e.message, e.io, sha256, safe);
      assert events == before + [e];
      if xid in r.incoming {
        NamelessExactly(r0, before, sha256, safe, xid);
      }
      hide *;
      OpenOn(r0, before, e, sha256, safe, xid);
      SinceOn(Taking(r0, before, sha256, safe, xid), Open(r0, before, sha256, safe, xid), TakesName(r, e, safe, xid));
    }
  }

  /** A peer that never uses an xid for two starts, as the sender's counter ensures. */
  ghost predicate FreshXids(events: seq<Event>) {
    forall i, j :: 0 <= i < j < |events| && events[i].message.FileStart? && events[j].message.FileStart? ==>
      events[i].message.xid != events[j].message.xid
  }

  ghost predicate AllNamed(r: Receiver) {
    forall xid :: xid in r.incoming ==> r.incoming[xid].named
  }

  lemma {:induction false} OpenWasStarted(r0: Receiver, events: seq<Event>, sha256: Bytes -> Hash, safe: Path -> bool, xid: nat)
    requires r0.incoming == map[] && xid in HandleAll(r0, events, sha256, safe).incoming
    ensures exists k :: 0 <= k < |events| && events[k].message.FileStart? && events[k].message.xid == xid
  {
    if events != [] {
      var before, e := events[..|events| - 1], events[|events| - 1];
      var r := HandleAll(r0, before, sha256, safe);
      NameMoves(r, e, sha256, safe, xid);
      if xid in r.incoming {
        OpenWasStarted(r0, before, sha256, safe, xid);
        var k :| 0 <= k < |before| && before[k].message.FileStart? && before[k].message.xid == xid;
        assert events[k] == before[k];
      } else {
        OnlyStartsOpen(r, e, sha256, safe, xid);
      }
    }
  }

  lemma OnlyStartsOpen(r: Receiver, e: Event, sha256: Bytes -> Hash, safe: Path -> bool, xid: nat)
    requires xid !in r.incoming && xid in Handle(r, e.message, e.io, sha256, safe).incoming
    ensures e.message.FileStart? && e.message.xid == xid
  {
  }

  lemma {:induction false} FreshXidsKeepNames(r0: Receiver, events: seq<Event>, sha256: Bytes -> Hash, safe: Path -> bool)
    requires r0.incoming == map[] && FreshXids(events)
    ensures AllNamed(HandleAll(r0, events, sha256, safe))
  {
    if events != [] {
      var before, e := events[..|events| - 1], events[|events| - 1];
      var r := HandleAll(r0, before, sha256, safe);
      FreshXidsKeepNames(r0, before, sha256, safe);
      assert forall k :: 0 <= k < |before| ==> events[k] == before[k];
      forall xid | xid in Handle(r, e.message, e.io, sha256, safe).incoming
        ensures Handle(r, e.message, e.io, sha256, safe).incoming[xid].named
      {
        NameMoves(r, e, sha256, safe, xid);
        if TakesName(r, e, safe, xid) {
          OpenWasStarted(r0, before, sha256, safe, xid);
        }
      }
    }
  }

  /** With a peer that numbers its transfers and no move that fails after dropping the old
      copy, no run of messages takes a file away, however else the disk fails. */
  lemma {:induction false} NothingVanishes(r0: Receiver, events: seq<Event>, sha256: Bytes -> Hash, safe: Path -> bool, p: Path)
    requires r0.incoming == map[] && FreshXids(events) && p in r0.files
    requires forall k :: 0 <= k < |events| && events[k].message.FileEnd? ==> !Gone(events[k].io)
    ensures p in HandleAll(r0, events, sha256, safe).files
  {
    forall k | 0 <= k < |events|
      ensures !LosesAt(r0, events, k, sha256, safe, p)
    {
      FreshXidsKeepNames(r0, events[..k], sha256, safe);
    }
    PresentExactly(r0, events, sha256, safe, p);
  }

  /** With two starts on one xid and no disk error at all, verified content takes the copy
      already there away, while the manifest goes on describing it. */
  lemma RestartLosesFile(r0: Receiver, p: Path, data: Bytes, xid: nat, sha256: Bytes -> Hash, safe: Path -> bool)
    requires r0.incoming == map[] && p in r0.files && safe(p)
    ensures var start := FileStart(xid, p, 0, 0, false);
            var r := HandleAll(r0, Clean([start, start, FileLiteral(xid, data), FileEnd(xid, sha256(data))]), sha256, safe);
            p !in r.files && r.local == r0.local
  {
    var start, literal, end := FileStart(xid, p, 0, 0, false), FileLiteral(xid, data), FileEnd(xid, sha256(data));
    var r1 := HandleStart(r0, start, Fine, safe);
    var r2 := HandleStart(r1, start, Fine, safe);
    var r3 := HandleLiteral(r2, xid, data, Fine);
    assert [] + data == data;
    assert [start, start, literal, end] == [start] + [start] + [literal] + [end];
    var r4 := HandleEnd(r3, xid, sha256(data), Fine, sha256);
    assert p !in r4.files && r4.local == r0.local;
    assert Handle(r0, start, Fine, sha256, safe) == r1 && Handle(r1, start, Fine, sha256, safe) == r2;
    assert Handle(r2, literal, Fine, sha256, safe) == r3 && Handle(r3, end, Fine, sha256, safe) == r4;
    hide *;
    CleanConcat([start], [start]);
    CleanConcat([start] + [start], [literal]);
    CleanConcat([start] + [start] + [literal], [end]);
    HandleConcat(r0, Clean([start]), Clean([start]), sha256, safe);
    HandleConcat(r0, Clean([start] + [start]), Clean([literal]), sha256, safe);
    HandleConcat(r0, Clean([start] + [start] + [literal]), Clean([end]), sha256, safe);
    OneMessage(r0, start, sha256, safe);
    OneMessage(r1, start, sha256, safe);
    OneMessage(r2, literal, sha256, safe);
    OneMessage(r3, end, sha256, safe);
  }

  // ----- What becomes of each start ---------------------------------------------

  /** Whether a reply settles path p: releases it, or asks for it again. */
  predicate Settles(reply: Reply, p: Path) {
    (reply.Release? || reply.Retry?) && reply.path == p
  }

  function Settlements(out: seq<Reply>, p: Path): nat {
    if out == [] then 0 else Settlements(out[..|out| - 1], p) + (if Settles(out[|out| - 1], p) then 1 else 0)
  }

  function Retries(out: seq<Reply>, p: Path): nat {
    if out == [] then 0 else Retries(out[..|out| - 1], p) + (if out[|out| - 1] == Retry(p) then 1 else 0)
  }

  function Starts(events: seq<Event>, p: Path, deltasOnly: bool): nat {
    if events == [] then 0
    else
      var m := events[|events| - 1].message;
      Starts(events[..|events| - 1], p, deltasOnly) +
      (if m.FileStart? && m.path == p && (deltasOnly ==> m.isDelta) then 1 else 0)
  }

  /** The transfers of p still open. */
  ghost function Pending(r: Receiver, p: Path, deltasOnly: bool): set<nat> {
    set xid | xid in r.incoming && r.incoming[xid].path == p && (deltasOnly ==> r.incoming[xid].isDelta)
  }

  /** A start that takes over the xid of an open transfer of p, which is never answered for. */
  predicate Displaces(r: Receiver, e: Event, safe: Path -> bool, p: Path) {
    e.message.FileStart? && e.message.xid in r.incoming && r.incoming[e.message.xid].path == p &&
    safe(e.message.path) && !e.io.Fails?
  }

  function Displaced(r0: Receiver, events: seq<Event>, sha256: Bytes -> Hash, safe: Path -> bool, p: Path): nat {
    if events == [] then 0
    else
      var before := events[..|events| - 1];
      Displaced(r0, before, sha256, safe, p) +
      (if Displaces(HandleAll(r0, before, sha256, safe), events[|events| - 1], safe, p) then 1 else 0)
  }

  lemma SettlementsSnoc(out: seq<Reply>, reply: Reply, p: Path)
    ensures Settlements(out + [reply], p) == Settlements(out, p) + (if Settles(reply, p) then 1 else 0)
    ensures Retries(out + [reply], p) == Retries(out, p) + (if reply == Retry(p) then 1 else 0)
  {
    assert (out + [reply])[..|out|] == out;
  }

  /** What has been answered for p and what is still open: all settlements, or retries and
      deltas only. */
  ghost function Account(r: Receiver, p: Path, deltasOnly: bool): nat {
    (if deltasOnly then Retries(r.out, p) else Settlements(r.out, p)) + |Pending(r, p, deltasOnly)|
  }

  ghost predicate Counts(r: Receiver, xid: nat, p: Path, deltasOnly: bool) {
    xid in r.incoming && r.incoming[xid].path == p && (deltasOnly ==> r.incoming[xid].isDelta)
  }

  function One(b: bool): nat {
    if b then 1 else 0
  }

  lemma PendingAfter(r: Receiver, r': Receiver, xid: nat, p: Path, deltasOnly: bool)
    requires forall x :: x != xid ==> (Counts(r', x, p, deltasOnly) <==> Counts(r, x, p, deltasOnly))
    ensures |Pending(r', p, deltasOnly)| + One(Counts(r, xid, p, deltasOnly)) ==
            |Pending(r, p, deltasOnly)| + One(Counts(r', xid, p, deltasOnly))
  {
    var a, b := Pending(r, p, deltasOnly), Pending(r', p, deltasOnly);
    assert forall x :: x in a <==> Counts(r, x, p, deltasOnly);
    assert forall x :: x in b <==> Counts(r', x, p, deltasOnly);
    hide Pending, Counts;
    assert a - {xid} == b - {xid};
    WithOrWithout(a, xid);
    WithOrWithout(b, xid);
  }

  lemma WithOrWithout(xids: set<nat>, xid: nat)
    ensures |xids| == |xids - {xid}| + One(xid in xids)
  {
    if xid in xids {
      assert xids == (xids - {xid}) + {xid};
    } else {
      assert xids == xids - {xid};
    }
  }

  /** A message that keeps its transfer, acking at most. */
  ghost predicate Keeps(r: Receiver, r': Receiver, xid: nat) {
    && xid in r.incoming && xid in r'.incoming
    && r'.incoming == r.incoming[xid := r'.incoming[xid]]
    && r'.incoming[xid].path == r.incoming[xid].path && r'.incoming[xid].isDelta == r.incoming[xid].isDelta
    && (r'.out == r.out || exists bytes :: r'.out == r.out + [Acks(xid, bytes)])
  }

  /** A message that closes its transfer, acking at most, with one reply that settles it. */
  ghost predicate Closes(r: Receiver, r': Receiver, xid: nat, reply: Reply) {
    && xid in r.incoming && r'.incoming == r.incoming - {xid}
    && (reply == Release(r.incoming[xid].path) || (reply == Retry(r.incoming[xid].path) && r.incoming[xid].isDelta))
    && (r'.out == r.out + [reply] || exists bytes :: r'.out == r.out + [Acks(xid, bytes)] + [reply])
  }

  lemma KeepingBalances(r: Receiver, r': Receiver, xid: nat, p: Path, deltasOnly: bool)
    requires Keeps(r, r', xid)
    ensures Account(r', p, deltasOnly) == Account(r, p, deltasOnly)
  {
    PendingAfter(r, r', xid, p, deltasOnly);
    if bytes :| r'.out == r.out + [Acks(xid, bytes)] {
      SettlementsSnoc(r.out, Acks(xid, bytes), p);
    }
    hide Settlements, Retries, Pending;
  }

  lemma ClosingBalances(r: Receiver, r': Receiver, xid: nat, reply: Reply, p: Path, deltasOnly: bool)
    requires Closes(r, r', xid, reply)
    ensures Account(r', p, deltasOnly) <= Account(r, p, deltasOnly)
    ensures !deltasOnly ==> Account(r', p, deltasOnly) == Account(r, p, deltasOnly)
  {
    PendingAfter(r, r', xid, p, deltasOnly);
    SettlementsSnoc(r.out, reply, p);
    if bytes :| r'.out == r.out + [Acks(xid, bytes)] + [reply] {
      SettlementsSnoc(r.out, Acks(xid, bytes), p);
      SettlementsSnoc(r.out + [Acks(xid, bytes)], reply, p);
    }
    hide Settlements, Retries, Pending;
  }

  lemma LiteralShape(r: Receiver, xid: nat, data: Bytes, io: Io)
    requires xid in r.incoming
    ensures var r' := HandleLiteral(r, xid, data, io);
            Keeps(r, r', xid) || Closes(r, r', xid, Release(r.incoming[xid].path))
  {
  }

  lemma CopyShape(r: Receiver, xid: nat, offset: nat, len: nat, io: Io)
    requires xid in r.incoming
    ensures var r' := HandleCopy(r, xid, offset, len, io);
            Keeps(r, r', xid) || Closes(r, r', xid, Release(r.incoming[xid].path))
  {
    assert r.incoming[xid := r.incoming[xid]] == r.incoming;
  }

  lemma EndShape(r: Receiver, xid: nat, hash: Hash, io: Io, sha256: Bytes -> Hash)
    requires xid in r.incoming
    ensures var r', t := HandleEnd(r, xid, hash, io, sha256), r.incoming[xid];
            Closes(r, r', xid, if sha256(t.absorbed) != hash && t.isDelta then Retry(t.path) else Release(t.path))
  {
  }

  /** The messages after a start keep a transfer, or close it with one settlement. */
  lemma OthersSettle(r: Receiver, e: Event, sha256: Bytes -> Hash, safe: Path -> bool, p: Path, deltasOnly: bool)
    requires !e.message.FileStart?
    ensures var r' := Handle(r, e.message, e.io, sha256, safe);
            && Account(r', p, deltasOnly) <= Account(r, p, deltasOnly)
            && (!deltasOnly ==> Account(r', p, deltasOnly) == Account(r, p, deltasOnly))
  {
    hide Account, HandleLiteral, HandleCopy, HandleEnd, Keeps, Closes;
    var m := e.message;
    var r' := Handle(r, m, e.io, sha256, safe);
    if m.xid !in r.incoming {
      UnknownIgnored(r, m, e.io, sha256, safe);
    } else {
      var t := r.incoming[m.xid];
      var reply := if m.FileEnd? && sha256(t.absorbed) != m.hash && t.isDelta then Retry(t.path) else Release(t.path);
      match m {
        case FileLiteral(xid, data) => LiteralShape(r, xid, data, e.io);
        case FileCopy(xid, offset, len) => CopyShape(r, xid, offset, len, e.io);
        case FileEnd(xid, hash) => EndShape(r, xid, hash, e.io, sha256);
      }
      if Keeps(r, r', m.xid) {
        KeepingBalances(r, r', m.xid, p, deltasOnly);
      } else {
        ClosingBalances(r, r', m.xid, reply, p, deltasOnly);
      }
    }
  }

  lemma UnknownIgnored(r: Receiver, m: Message, io: Io, sha256: Bytes -> Hash, safe: Path -> bool)
    requires !m.FileStart? && m.xid !in r.incoming
    ensures Handle(r, m, io, sha256, safe) == r
  {
  }

  /** A start is answered at once, or opens a transfer, displacing any on its xid. */
  lemma StartSettles(r: Receiver, e: Event, safe: Path -> bool, p: Path, deltasOnly: bool)
    requires e.message.FileStart?
    ensures var r', m := HandleStart(r, e.message, e.io, safe), e.message;
            && Account(r', p, deltasOnly) <= Account(r, p, deltasOnly) + One(m.path == p && (deltasOnly ==> m.isDelta))
            && (!deltasOnly ==>
                  Account(r', p, deltasOnly) + One(Displaces(r, e, safe, p)) == Account(r, p, deltasOnly) + One(m.path == p))
  {
    var m := e.message;
    var r' := HandleStart(r, m, e.io, safe);
    SettlementsSnoc(r.out, Release(m.path), p);
    StartShape(r, e, safe, p, deltasOnly);
    PendingAfter(r, r', m.xid, p, deltasOnly);
    hide Settlements, Retries, Pending, Counts, HandleStart, Displaces;
  }

  lemma StartShape(r: Receiver, e: Event, safe: Path -> bool, p: Path, deltasOnly: bool)
    requires e.message.FileStart?
    ensures var r', m := HandleStart(r, e.message, e.io, safe), e.message;
            && (forall x :: x != m.xid ==> (Counts(r', x, p, deltasOnly) <==> Counts(r, x, p, deltasOnly)))
            && (r'.out == r.out || r'.out == r.out + [Release(m.path)])
            && (r'.out != r.out ==> Counts(r', m.xid, p, deltasOnly) ==> Counts(r, m.xid, p, deltasOnly))
            && (r'.out == r.out ==> (Counts(r', m.xid, p, deltasOnly) <==> m.path == p && (deltasOnly ==> m.isDelta)))
            && (!deltasOnly ==>
                  One(Displaces(r, e, safe, p)) ==
                  if r'.out == r.out then One(Counts(r, m.xid, p, false))
                  else One(Counts(r, m.xid, p, false)) - One(Counts(r', m.xid, p, false)))
  {
  }

  /** Conservation over every run, whatever the messages and the disk: the settlements given
      for a path, its transfers still open and those displaced are the transfers started for
      it. So each start is answered at most once, and, unless another start takes over its
      xid, exactly once when it closes. */
  lemma {:induction false} EveryStartSettlesOnce(r0: Receiver, events: seq<Event>, sha256: Bytes -> Hash, safe: Path -> bool, p: Path)
    ensures var r := HandleAll(r0, events, sha256, safe);
            Account(r, p, false) + Displaced(r0, events, sha256, safe, p) == Account(r0, p, false) + Starts(events, p, false)
  {
    if events != [] {
      var before, e := events[..|events| - 1], events[|events| - 1];
      EveryStartSettlesOnce(r0, before, sha256, safe, p);
      var r := HandleAll(r0, before, sha256, safe);
      if e.message.FileStart? {
        StartSettles(r, e, safe, p, false);
      } else {
        OthersSettle(r, e, sha256, safe, p, false);
      }
      hide HandleStart, HandleLiteral, HandleCopy, HandleEnd, Account, Displaces;
    }
  }

  /** At most one retry per delta: over every run, a path is asked for whole again no more
      often than deltas were started for it. */
  lemma {:induction false} OneRetryPerDelta(r0: Receiver, events: seq<Event>, sha256: Bytes -> Hash, safe: Path -> bool, p: Path)
    ensures var r := HandleAll(r0, events, sha256, safe);
            Account(r, p, true) <= Account(r0, p, true) + Starts(events, p, true)
  {
    if events != [] {
      var before, e := events[..|events| - 1], events[|events| - 1];
      OneRetryPerDelta(r0, before, sha256, safe, p);
      var r := HandleAll(r0, before, sha256, safe);
      if e.message.FileStart? {
        StartSettles(r, e, safe, p, true);
      } else {
        OthersSettle(r, e, sha256, safe, p, true);
      }
      hide HandleStart, HandleLiteral, HandleCopy, HandleEnd, Account;
    }
  }
}
