/** The three-way merge: each peer turns (base, local, remote) into its own plan, and
    two peers running it independently converge. */
module Merge {
  import opened Types
  import opened Order

  datatype SyncMode = TwoWay | Mirror

  datatype ConflictPolicy = Newer | Larger | PreferLocal | PreferRemote

  datatype Options = Options(mode: SyncMode, conflict: ConflictPolicy, source: bool, propagateDeletes: bool)

  datatype Change = Unchanged | Added | Modified | Deleted | Absent

  datatype Kind = Nothing | Pull | DeleteLocal | Push | DeleteRemote

  datatype Decision = Decision(kind: Kind, conflict: bool)

  type Entry = Option<FileMeta>

  // ----- One path ---------------------------------------------------------------

  function Classify(cur: Entry, base: Entry): Change {
    if cur.Some? then
      if base.None? then Added
      else if cur.value.SameContent(base.value) then Unchanged else Modified
    else if base.Some? then Deleted else Absent
  }

  predicate Changed(c: Change) {
    c == Added || c == Modified || c == Deleted
  }

  /** Whether the local version wins a conflict. */
  predicate LocalWins(l: Entry, r: Entry, p: ConflictPolicy) {
    if l.Some? && r.None? then p != PreferRemote
    else if l.None? && r.Some? then p == PreferLocal
    else if l.None? then true
    else match p
      case PreferLocal => true
      case PreferRemote => false
      case Larger => if l.value.size != r.value.size then l.value.size > r.value.size else NewerWins(l.value, r.value)
      case Newer => NewerWins(l.value, r.value)
  }

  predicate NewerWins(l: FileMeta, r: FileMeta) {
    if l.mtime != r.mtime then l.mtime > r.mtime else Less(r.hash, l.hash)
  }

  function DecideTwoWay(l: Entry, r: Entry, b: Entry, o: Options): Decision {
    if l.None? && r.None? then Decision(Nothing, false)
    else if l.Some? && r.Some? && l.value.SameContent(r.value) then Decision(Nothing, false)
    else
      var lc, rc := Changed(Classify(l, b)), Changed(Classify(r, b));
      if lc && !rc then Decision(if l.Some? then Push else DeleteRemote, false)
      else if rc && !lc then
        if r.Some? then Decision(Pull, false)
        else Decision(if o.propagateDeletes then DeleteLocal else Nothing, false)
      else if LocalWins(l, r, o.conflict) then Decision(if l.Some? then Push else DeleteRemote, true)
      else if r.Some? then Decision(Pull, true)
      else Decision(if o.propagateDeletes then DeleteLocal else Nothing, true)
  }

  function DecideMirror(l: Entry, r: Entry, o: Options): Decision {
    if o.source then
      if l.Some? then
        Decision(if r.Some? && r.value.SameContent(l.value) then Nothing else Push, false)
      else Decision(DeleteRemote, false)
    else if r.Some? then
      Decision(if l.Some? && l.value.SameContent(r.value) then Nothing else Pull, false)
    else Decision(if o.propagateDeletes then DeleteLocal else Nothing, false)
  }

  function Decide(l: Entry, r: Entry, b: Entry, o: Options): Decision {
    if o.mode == Mirror then DecideMirror(l, r, o) else DecideTwoWay(l, r, b, o)
  }

  function Complement(p: ConflictPolicy): ConflictPolicy {
    match p
    case PreferLocal => PreferRemote
    case PreferRemote => PreferLocal
    case Newer => Newer
    case Larger => Larger
  }

  /** Both absent, or both present with the same content. */
  predicate Agree(l: Entry, r: Entry) {
    if l.Some? && r.Some? then l.value.SameContent(r.value) else l.None? && r.None?
  }

  // ----- Two peers, one path ----------------------------------------------------

  /** Options two peers may run against each other: complementary policies, or one
      mirror source and one replica. */
  predicate Paired(o1: Options, o2: Options) {
    if o1.mode == TwoWay then o2.mode == TwoWay && o2.conflict == Complement(o1.conflict)
    else o2.mode == Mirror && o1.source != o2.source
  }

  /** Both sides changed the path since the baseline, or the baseline is inconsistent. */
  predicate Contested(l: Entry, r: Entry, b: Entry) {
    Changed(Classify(l, b)) == Changed(Classify(r, b))
  }

  /** The tie the Newer policy cannot break: two sizes under one hash and one mtime. */
  predicate Unbreakable(l: Entry, r: Entry, p: ConflictPolicy) {
    && p == Newer && l.Some? && r.Some?
    && l.value.mtime == r.value.mtime && l.value.hash == r.value.hash && l.value.size != r.value.size
  }

  predicate Acts(l: Entry, r: Entry, b: Entry, o: Options) {
    var k := Decide(l, r, b, o).kind;
    k == Pull || k == DeleteLocal
  }

  /** A copy the remote is without and this side is told to keep: a replica's, or, two-way, one
      the baseline held that is unchanged or has nothing to say against the remote. */
  predicate KeepsDeleted(l: Entry, r: Entry, b: Entry, o: Options) {
    && !o.propagateDeletes && r.None?
    && if o.mode == Mirror then !o.source
       else l.Some? && b.Some? && (l.value.SameContent(b.value) || o.conflict == PreferRemote)
  }

  /** That is, switching deletions on would delete it. */
  lemma KeptIsUndeleted(l: Entry, r: Entry, b: Entry, o: Options)
    ensures KeepsDeleted(l, r, b, o) <==>
            !o.propagateDeletes && Decide(l, r, b, o.(propagateDeletes := true)).kind == DeleteLocal
  {
  }

  /** Nothing stands in the way of the two plans complementing each other here. */
  predicate Resolvable(l: Entry, r: Entry, b: Entry, o1: Options, o2: Options) {
    && !(o1.mode == TwoWay && Contested(l, r, b) && Unbreakable(l, r, o1.conflict))
    && !KeepsDeleted(l, r, b, o1)
    && !KeepsDeleted(r, l, b, o2)
  }

  lemma PoliciesComplement(l: Entry, r: Entry, p: ConflictPolicy)
    requires !Agree(l, r)
    ensures LocalWins(l, r, p) != LocalWins(r, l, Complement(p)) <==> !Unbreakable(l, r, p)
  {
    if l.Some? && r.Some? {
      LessIsTotal(l.value.hash, r.value.hash);
      LessIsAsymmetric(l.value.hash, r.value.hash);
    }
  }

  /** Exactly when the two plans are complements on a disagreeing path, whatever the
      baseline: one peer, and only one, changes its copy, and then the other one's plan
      names that very change as the peer's. */
  lemma ExactlyOneActs(l: Entry, r: Entry, b: Entry, o1: Options, o2: Options)
    requires Paired(o1, o2) && !Agree(l, r)
    ensures Acts(l, r, b, o1) != Acts(r, l, b, o2) <==> Resolvable(l, r, b, o1, o2)
    ensures Resolvable(l, r, b, o1, o2) ==>
              && (Decide(l, r, b, o1).kind == Pull <==> Decide(r, l, b, o2).kind == Push)
              && (Decide(l, r, b, o1).kind == DeleteLocal <==> Decide(r, l, b, o2).kind == DeleteRemote)
              && Decide(l, r, b, o1).conflict == Decide(r, l, b, o2).conflict
  {
    if o1.mode == TwoWay {
      PoliciesComplement(l, r, o1.conflict);
      hide LocalWins;
    } else {
      hide DecideTwoWay;
    }
  }

  /** What a path holds once a decision has been carried out on both sides. */
  function Survivor(l: Entry, r: Entry, d: Decision): Entry {
    if d.kind == Pull || d.kind == DeleteLocal then r else l
  }

  /** What each policy is named for: the survivor of a conflict against the one given up. */
  predicate Preferred(winner: Entry, loser: Entry, local: Entry, remote: Entry, p: ConflictPolicy) {
    match p
    case PreferLocal => winner == local
    case PreferRemote => winner == remote
    case Newer => winner.Some? && (loser.Some? ==> NoOlder(winner.value, loser.value))
    case Larger =>
      winner.Some? && (loser.Some? ==>
        winner.value.size > loser.value.size ||
        (winner.value.size == loser.value.size && NoOlder(winner.value, loser.value)))
  }

  /** Written later, or at the same time with a hash that is not before the other. */
  predicate NoOlder(winner: FileMeta, loser: FileMeta) {
    winner.mtime > loser.mtime || (winner.mtime == loser.mtime && !Less(winner.hash, loser.hash))
  }

  /** The three-way merge: a change made on one side only survives, and otherwise the
      policy's preference does, unless it is a deletion that this side is told to ignore;
      nothing but the two versions at hand ever survives. */
  lemma OneSidedChangeSurvives(l: Entry, r: Entry, b: Entry, o: Options)
    requires o.mode == TwoWay && !Agree(l, r)
    ensures var d, lc, rc := Decide(l, r, b, o), Changed(Classify(l, b)), Changed(Classify(r, b));
            var kept := Survivor(l, r, d);
            && d.conflict == (lc == rc)
            && (KeepsDeleted(l, r, b, o) ==> d.kind == Nothing && kept == l)
            && (lc && !rc ==> kept == l)
            && (rc && !lc && !KeepsDeleted(l, r, b, o) ==> kept == r)
            && (lc == rc && !KeepsDeleted(l, r, b, o) ==> Preferred(kept, if kept == l then r else l, l, r, o.conflict))
  {
    if l.Some? && r.Some? {
      LessIsTotal(l.value.hash, r.value.hash);
      LessIsAsymmetric(l.value.hash, r.value.hash);
    }
  }

  /** Both peers resolve this path against each other: one and only one moves. */
  ghost predicate PairResolves(l: Entry, r: Entry, b: Entry, p: ConflictPolicy, q: ConflictPolicy) {
    Acts(l, r, b, Options(TwoWay, p, false, true)) != Acts(r, l, b, Options(TwoWay, q, false, true))
  }

  ghost predicate Contest(l: Entry, r: Entry, p: ConflictPolicy) {
    !Agree(l, r) && !Unbreakable(l, r, p)
  }

  /** The handshake's test is exact: two policies resolve every disagreement between
      them if and only if one is the other's complement. */
  lemma HandshakeTestIsExact(p: ConflictPolicy, q: ConflictPolicy)
    ensures q == Complement(p) <==> forall l, r, b :: Contest(l, r, p) ==> PairResolves(l, r, b, p, q)
  {
    if q == Complement(p) {
      forall l, r, b | Contest(l, r, p)
        ensures PairResolves(l, r, b, p, q)
      {
        ExactlyOneActs(l, r, b, Options(TwoWay, p, false, true), Options(TwoWay, q, false, true));
      }
    } else {
      var h: Hash := seq(32, _ => 0);
      var newer, larger := Some(FileMeta(1, 2, 0, h)), Some(FileMeta(2, 1, 0, h));
      assert Contest(newer, larger, p) && Contest(larger, newer, p);
      assert !PairResolves(newer, larger, None, p, q) || !PairResolves(larger, newer, None, p, q);
    }
  }

  // ----- The whole plan ---------------------------------------------------------

  datatype SyncPlan = SyncPlan(pull: seq<Path>, deleteLocal: seq<Path>, conflicts: seq<Path>,
                               push: seq<Path>, deleteRemote: seq<Path>)
  {
    predicate Empty() {
      pull == [] && deleteLocal == [] && push == [] && deleteRemote == []
    }
  }

  function PlannedKeys(base: Tree, local: Tree, remote: Tree, o: Options): set<Path> {
    (if o.mode == Mirror then {} else base.Keys) + local.Keys + remote.Keys
  }

  function DecidePath(p: Path, base: Tree, local: Tree, remote: Tree, o: Options): Decision {
    Decide(Find(local, p), Find(remote, p), Find(base, p), o)
  }

  /** s lists, in order and once each, the paths decided as k. */
  ghost predicate Lists(s: seq<Path>, k: Kind, base: Tree, local: Tree, remote: Tree, o: Options) {
    && Sorted(s)
    && forall p :: p in s <==> p in PlannedKeys(base, local, remote, o) && DecidePath(p, base, local, remote, o).kind == k
  }

  ghost predicate ListsConflicts(s: seq<Path>, base: Tree, local: Tree, remote: Tree, o: Options) {
    && Sorted(s)
    && forall p :: p in s <==> p in PlannedKeys(base, local, remote, o) && DecidePath(p, base, local, remote, o).conflict
  }

  ghost predicate IsPlan(plan: SyncPlan, base: Tree, local: Tree, remote: Tree, o: Options) {
    && Lists(plan.pull, Pull, base, local, remote, o)
    && Lists(plan.deleteLocal, DeleteLocal, base, local, remote, o)
    && Lists(plan.push, Push, base, local, remote, o)
    && Lists(plan.deleteRemote, DeleteRemote, base, local, remote, o)
    && ListsConflicts(plan.conflicts, base, local, remote, o)
  }

  datatype Inputs = Inputs(base: Tree, local: Tree, remote: Tree, o: Options) {
    function At(p: Path): Decision { DecidePath(p, base, local, remote, o) }
  }

  /** The paths of done that a column of the plan picks, in order. */
  ghost function Chosen(done: seq<Path>, ins: Inputs, column: Option<Kind>): seq<Path> {
    if done == [] then [] else
      Chosen(done[..|done| - 1], ins, column) +
      (if Picks(ins.At(done[|done| - 1]), column) then [done[|done| - 1]] else [])
  }

  /** A column of the plan is one kind of action, or the conflicts. */
  ghost predicate Picks(d: Decision, column: Option<Kind>) {
    match column case Some(k) => d.kind == k case None => d.conflict
  }

  lemma {:induction false} ChosenIsSorted(done: seq<Path>, ins: Inputs, column: Option<Kind>)
    requires Sorted(done)
    ensures Sorted(Chosen(done, ins, column))
    ensures forall p :: p in Chosen(done, ins, column) <==> p in done && Picks(ins.At(p), column)
  {
    if done != [] {
      var before, p := done[..|done| - 1], done[|done| - 1];
      ChosenIsSorted(before, ins, column);
      assert done == before + [p];
      var c := Chosen(before, ins, column);
      if c != [] {
        assert c[|c| - 1] in c;
      }
      SortedAppend(c, p);
    }
  }

  ghost predicate Filed(plan: SyncPlan, done: seq<Path>, ins: Inputs) {
    && plan.pull == Chosen(done, ins, Some(Pull))
    && plan.deleteLocal == Chosen(done, ins, Some(DeleteLocal))
    && plan.push == Chosen(done, ins, Some(Push))
    && plan.deleteRemote == Chosen(done, ins, Some(DeleteRemote))
    && plan.conflicts == Chosen(done, ins, None)
  }

  function FileUnder(plan: SyncPlan, p: Path, d: Decision): SyncPlan {
    var filed := match d.kind
      case Pull => plan.(pull := plan.pull + [p])
      case DeleteLocal => plan.(deleteLocal := plan.deleteLocal + [p])
      case Push => plan.(push := plan.push + [p])
      case DeleteRemote => plan.(deleteRemote := plan.deleteRemote + [p])
      case Nothing => plan;
    if d.conflict then filed.(conflicts := filed.conflicts + [p]) else filed
  }

  lemma FileNext(plan: SyncPlan, keys: seq<Path>, i: nat, ins: Inputs)
    requires i < |keys| && Filed(plan, keys[..i], ins)
    ensures Filed(FileUnder(plan, keys[i], ins.At(keys[i])), keys[..i + 1], ins)
  {
    assert keys[..i + 1][..i] == keys[..i];
  }

  lemma FiledIsPlan(plan: SyncPlan, keys: seq<Path>, ins: Inputs)
    requires Sorted(keys) && Filed(plan, keys, ins)
    requires forall p :: p in keys <==> p in PlannedKeys(ins.base, ins.local, ins.remote, ins.o)
    ensures IsPlan(plan, ins.base, ins.local, ins.remote, ins.o)
  {
    hide Sorted, Chosen;
    ChosenIsSorted(keys, ins, Some(Pull));
    ChosenIsSorted(keys, ins, Some(DeleteLocal));
    ChosenIsSorted(keys, ins, Some(Push));
    ChosenIsSorted(keys, ins, Some(DeleteRemote));
    ChosenIsSorted(keys, ins, None);
  }

  method Reconcile(base: Tree, local: Tree, remote: Tree, o: Options) returns (plan: SyncPlan)
    ensures IsPlan(plan, base, local, remote, o)
  {
    var b: Tree := if o.mode == Mirror then map[] else base;
    var keys := Listing(b.Keys + local.Keys + remote.Keys);
    ghost var ins := Inputs(base, local, remote, o);
    plan := SyncPlan([], [], [], [], []);
    for i := 0 to |keys|
      invariant Filed(plan, keys[..i], ins)
    {
      FileNext(plan, keys, i, ins);
      plan := FileUnder(plan, keys[i], DecidePath(keys[i], b, local, remote, o));
    }
    assert keys[..|keys|] == keys;
    FiledIsPlan(plan, keys, ins);
  }

  ghost predicate TreesAgree(a: Tree, b: Tree) {
    forall p :: Agree(Find(a, p), Find(b, p))
  }

  /** The same paths, with the same sizes and hashes. */
  ghost predicate HoldSame(a: Tree, b: Tree) {
    a.Keys == b.Keys && forall p :: p in a ==> a[p].size == b[p].size && a[p].hash == b[p].hash
  }

  lemma AgreeingHoldSame(a: Tree, b: Tree)
    ensures TreesAgree(a, b) <==> HoldSame(a, b)
  {
    if TreesAgree(a, b) {
      forall p
        ensures p in a <==> p in b
        ensures p in a ==> a[p].size == b[p].size && a[p].hash == b[p].hash
      {
        assert Agree(Find(a, p), Find(b, p));
      }
    }
  }

  /** Exactly when there is nothing left to plan: the trees hold the same content at
      the same paths, but for copies this side should delete and is told to keep. */
  lemma PlanIsEmptyExactly(plan: SyncPlan, base: Tree, local: Tree, remote: Tree, o: Options)
    requires IsPlan(plan, base, local, remote, o)
    ensures plan.Empty() <==>
            forall p :: Agree(Find(local, p), Find(remote, p)) ||
                        KeepsDeleted(Find(local, p), Find(remote, p), Find(base, p), o)
    ensures o.propagateDeletes ==> (plan.Empty() <==> TreesAgree(local, remote))
    ensures o.propagateDeletes ==> (plan.Empty() <==> HoldSame(local, remote))
  {
    hide Sorted, DecideTwoWay, DecideMirror, Decide;
    AgreeingHoldSame(local, remote);
    if plan.Empty() {
      forall p
        ensures Agree(Find(local, p), Find(remote, p)) ||
                KeepsDeleted(Find(local, p), Find(remote, p), Find(base, p), o)
      {
        assert p !in plan.pull && p !in plan.deleteLocal && p !in plan.push && p !in plan.deleteRemote;
        if p in PlannedKeys(base, local, remote, o) {
          NothingMeansAgreement(Find(local, p), Find(remote, p), Find(base, p), o);
        }
      }
    } else {
      var p := if plan.pull != [] then plan.pull[0] else if plan.deleteLocal != [] then plan.deleteLocal[0]
               else if plan.push != [] then plan.push[0] else plan.deleteRemote[0];
      assert p in plan.pull || p in plan.deleteLocal || p in plan.push || p in plan.deleteRemote;
      NothingMeansAgreement(Find(local, p), Find(remote, p), Find(base, p), o);
    }
  }

  lemma NothingMeansAgreement(l: Entry, r: Entry, b: Entry, o: Options)
    requires o.mode == TwoWay || l.Some? || r.Some?
    ensures Decide(l, r, b, o).kind == Nothing <==> Agree(l, r) || KeepsDeleted(l, r, b, o)
  {
  }

  /** No silent loss: a plan overwrites or deletes a local change only at a path it
      reports as a conflict, and it deletes only what the baseline held unchanged,
      unless the policy hands every conflict to the remote. */
  lemma NoSilentLoss(plan: SyncPlan, base: Tree, local: Tree, remote: Tree, o: Options, p: Path)
    requires IsPlan(plan, base, local, remote, o) && o.mode == TwoWay
    ensures (p in plan.pull || p in plan.deleteLocal) && Changed(Classify(Find(local, p), Find(base, p))) ==>
              p in plan.conflicts
    ensures p in plan.deleteLocal ==>
              p in local && p !in remote && p in base && o.propagateDeletes &&
              (local[p].SameContent(base[p]) || o.conflict == PreferRemote)
  {
    PathIsNotLostSilently(Find(local, p), Find(remote, p), Find(base, p), o);
    hide Sorted, Decide, Changed, Classify;
  }

  lemma PathIsNotLostSilently(l: Entry, r: Entry, b: Entry, o: Options)
    requires o.mode == TwoWay
    ensures var d := Decide(l, r, b, o);
            && (d.kind == Pull || d.kind == DeleteLocal) && Changed(Classify(l, b)) ==> d.conflict
    ensures Decide(l, r, b, o).kind == DeleteLocal ==>
              l.Some? && r.None? && b.Some? && o.propagateDeletes &&
              (l.value.SameContent(b.value) || o.conflict == PreferRemote)
  {
  }

  // ----- One side gives, the other takes ----------------------------------------

  /** The replica is without the source's copy, or holds another size or hash. */
  predicate Stale(replica: Entry, source: Entry) {
    && source.Some?
    && (replica.None? || replica.value.size != source.value.size || replica.value.hash != source.value.hash)
  }

  /** A mirror's plan, whatever the baseline: the source takes nothing and the replica gives
      nothing; what one pushes the other pulls, just where the replica is stale, and a copy the
      source is without goes, on the replica's side only if it is told to delete. Nothing is a
      conflict. */
  lemma MirrorPlanExactly(plan: SyncPlan, base: Tree, local: Tree, remote: Tree, o: Options, p: Path)
    requires IsPlan(plan, base, local, remote, o) && o.mode == Mirror
    ensures plan.conflicts == []
    ensures o.source ==>
              && plan.pull == [] && plan.deleteLocal == []
              && (p in plan.push <==> Stale(Find(remote, p), Find(local, p)))
              && (p in plan.deleteRemote <==> p in remote && p !in local)
    ensures !o.source ==>
              && plan.push == [] && plan.deleteRemote == []
              && (p in plan.pull <==> Stale(Find(local, p), Find(remote, p)))
              && (p in plan.deleteLocal <==> p in local && p !in remote && o.propagateDeletes)
  {
    hide Sorted;
    HeadIsListed(plan.conflicts);
    HeadIsListed(plan.pull);
    HeadIsListed(plan.deleteLocal);
    HeadIsListed(plan.push);
    HeadIsListed(plan.deleteRemote);
  }

  lemma HeadIsListed(ps: seq<Path>)
    ensures ps != [] ==> ps[0] in ps
  {
  }
}
