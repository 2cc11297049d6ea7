/** One peer over time: files edited under it, scans that notice, rounds that plan from
    copies, and pulls and deletions carried out later, none of them atomic with another.
    What a round's action destroys is what its plan knew of, unless it was written since. */
module Rounds {
  import opened Types
  import opened Merge

  /** What a path holds, and when it was put there: by the at-th event, or, at 0, before. */
  datatype Stamped = Stamped(entry: Entry, at: nat)

  type Book = map<Path, Stamped>

  function At(b: Book, p: Path): Stamped {
    if p in b then b[p] else Stamped(None, 0)
  }

  /** The tree a book describes. */
  function Shown(b: Book): Tree {
    map p | p in b && b[p].entry.Some? :: b[p].entry.value
  }

  /** A pull or deletion a plan has ordered: the entry and the baseline it was decided on. */
  datatype Action = Action(path: Path, saw: Stamped, base: Entry)

  /** What a path held at some time. */
  datatype Note = Note(path: Path, stamp: Stamped)

  /** disk is what the files hold, local what the manifest says; looks are the copies of the
      manifest that rounds have taken. deletes and wanted are ordered and not yet carried
      out or reserved; pulling holds the reservations; notes are what the manifest is still
      to be told, and reported the entries some plan has reported in conflict. */
  datatype System = System(clock: nat, disk: Book, local: Book, base: Tree, looks: seq<Book>,
                           deletes: set<Action>, wanted: set<Action>, pulling: map<Path, Action>,
                           notes: set<Note>, reported: set<Note>)

  datatype Step =
    | Edit(p: Path, e: Entry)        // someone changes or removes a file
    | Observe(p: Path)               // a scan reads what a file holds
    | Persist(t: Tree)               // a baseline is persisted, by this session or another
    | Look                           // a round copies the manifest
    | Plan(i: nat, remote: Tree, plan: SyncPlan)  // and decides, on the peer's tree as heard
    | Remove(d: Action, gone: bool)  // a planned deletion is tried
    | Reserve(d: Action)             // a planned pull is reserved, unless its path is already
    | Land(p: Path, m: FileMeta)     // whatever the peer sent for a reserved path lands
    | GiveUp(p: Path, lost: bool)    // or fails, perhaps after dropping the old copy
    | Record(n: Note)                // the manifest is told

  function ActionFor(look: Book, base: Tree, plan: SyncPlan, p: Path): Action {
    Action(p, At(look, p), Find(base, p))
  }

  /** What a plan made on this copy reports in conflict. */
  function Conflicts(look: Book, plan: SyncPlan): set<Note> {
    set p | p in plan.conflicts :: Note(p, At(look, p))
  }

  ghost predicate Enabled(s: System, step: Step, o: Options) {
    match step
    case Plan(i, remote, plan) => i < |s.looks| && IsPlan(plan, s.base, Shown(s.looks[i]), remote, o)
    case Remove(d, _) => d in s.deletes
    case Reserve(d) => d in s.wanted
    case Land(p, _) => p in s.pulling
    case GiveUp(p, _) => p in s.pulling
    case Record(n) => n in s.notes
    case _ => true
  }

  /** The step puts something new at p, or takes away what was there. */
  predicate Writes(step: Step, p: Path) {
    match step
    case Edit(q, _) => q == p
    case Remove(d, gone) => gone && d.path == p
    case Land(q, _) => q == p
    case GiveUp(q, lost) => lost && q == p
    case _ => false
  }

  function Written(step: Step): Entry {
    match step case Edit(_, e) => e case Land(_, m) => Some(m) case _ => None
  }

  function WritePath(step: Step): Path {
    match step case Edit(p, _) => p case Remove(d, _) => d.path case Land(p, _) => p case GiveUp(p, _) => p case _ => []
  }

  function DiskAfter(s: System, step: Step): Book {
    if Writes(step, WritePath(step)) then s.disk[WritePath(step) := Stamped(Written(step), s.clock + 1)] else s.disk
  }

  ghost function Next(s: System, step: Step): System
    requires step.Plan? ==> step.i < |s.looks|
  {
    var t := s.(clock := s.clock + 1, disk := DiskAfter(s, step));
    match step
    case Edit(_, _) => t
    case Observe(p) => t.(notes := s.notes + {Note(p, At(s.disk, p))})
    case Persist(b) => t.(base := b)
    case Look => t.(looks := s.looks + [s.local])
    case Plan(i, _, plan) =>
      t.(deletes := s.deletes + set p | p in plan.deleteLocal :: ActionFor(s.looks[i], s.base, plan, p),
         wanted := s.wanted + set p | p in plan.pull :: ActionFor(s.looks[i], s.base, plan, p),
         reported := s.reported + Conflicts(s.looks[i], plan))
    case Remove(d, gone) =>
      t.(deletes := s.deletes - {d}, notes := if gone then s.notes + {Note(d.path, Stamped(None, s.clock + 1))} else s.notes)
    case Reserve(d) => t.(wanted := s.wanted - {d}, pulling := if d.path in s.pulling then s.pulling else s.pulling[d.path := d])
    case Land(p, m) => t.(pulling := s.pulling - {p}, notes := s.notes + {Note(p, Stamped(Some(m), s.clock + 1))})
    case GiveUp(p, _) => t.(pulling := s.pulling - {p})
    case Record(n) => t.(local := s.local[n.path := n.stamp], notes := s.notes - {n})
  }

  ghost predicate Initial(s: System) {
    && s.clock == 0 && s.disk == s.local && (forall p :: p in s.disk ==> s.disk[p].at == 0)
    && s.looks == [] && s.deletes == {} && s.wanted == {} && s.pulling == map[] && s.notes == {} && s.reported == {}
  }

  ghost predicate Run(states: seq<System>, steps: seq<Step>, o: Options) {
    && |states| == |steps| + 1 && Initial(states[0])
    && forall i :: 0 <= i < |steps| ==> Enabled(states[i], steps[i], o) && states[i + 1] == Next(states[i], steps[i])
  }

  // ----- Whatever is known of a path was once there -----------------------------

  /** The stamp was on the disk when it says, by the time of state i. */
  ghost predicate Was(states: seq<System>, i: nat, p: Path, st: Stamped)
    requires i < |states|
  {
    st.at <= i && At(states[st.at].disk, p) == st
  }

  ghost predicate BookWas(states: seq<System>, i: nat, b: Book)
    requires i < |states|
  {
    forall p :: Was(states, i, p, At(b, p))
  }

  /** An action acts on an entry reported in conflict, or on content the baseline held there,
      or on nothing where the baseline held nothing. */
  predicate Grounded(d: Action, reported: set<Note>) {
    Note(d.path, d.saw) in reported || !Changed(Classify(d.saw.entry, d.base))
  }

  ghost predicate ActionWas(states: seq<System>, i: nat, d: Action)
    requires i < |states|
  {
    Was(states, i, d.path, d.saw) && Grounded(d, states[i].reported)
  }

  ghost predicate LooksWere(states: seq<System>, i: nat, looks: seq<Book>)
    requires i < |states|
  {
    forall k :: 0 <= k < |looks| ==> BookWas(states, i, looks[k])
  }

  ghost predicate ActionsWere(states: seq<System>, i: nat, ds: set<Action>)
    requires i < |states|
  {
    forall d :: d in ds ==> ActionWas(states, i, d)
  }

  ghost predicate PullsWere(states: seq<System>, i: nat, pulling: map<Path, Action>)
    requires i < |states|
  {
    forall p :: p in pulling ==> pulling[p].path == p && ActionWas(states, i, pulling[p])
  }

  ghost predicate NotesWere(states: seq<System>, i: nat, notes: set<Note>)
    requires i < |states|
  {
    forall n :: n in notes ==> Was(states, i, n.path, n.stamp)
  }

  ghost predicate Invariant(states: seq<System>, i: nat)
    requires i < |states|
  {
    var s := states[i];
    && s.clock == i
    && BookWas(states, i, s.disk) && BookWas(states, i, s.local) && LooksWere(states, i, s.looks)
    && ActionsWere(states, i, s.deletes) && ActionsWere(states, i, s.wanted)
    && PullsWere(states, i, s.pulling) && NotesWere(states, i, s.notes)
  }

  lemma WasStays(states: seq<System>, i: nat, b: Book)
    requires i + 1 < |states| && BookWas(states, i, b)
    ensures BookWas(states, i + 1, b)
  {
    forall p
      ensures Was(states, i + 1, p, At(b, p))
    {
      assert Was(states, i, p, At(b, p));
    }
  }

  lemma DiskWas(states: seq<System>, steps: seq<Step>, o: Options, i: nat)
    requires Run(states, steps, o) && i < |steps| && states[i].clock == i && BookWas(states, i, states[i].disk)
    ensures BookWas(states, i + 1, states[i + 1].disk)
    ensures Writes(steps[i], WritePath(steps[i])) ==>
              Was(states, i + 1, WritePath(steps[i]), Stamped(Written(steps[i]), i + 1))
    ensures steps[i].Land? ==> Was(states, i + 1, steps[i].p, Stamped(Some(steps[i].m), i + 1))
    ensures steps[i].Remove? && steps[i].gone ==> Was(states, i + 1, steps[i].d.path, Stamped(None, i + 1))
  {
    DiskFollows(states, steps, o, i);
    hide Run;
    var after := states[i + 1].disk;
    forall p
      ensures Was(states, i + 1, p, At(after, p))
    {
      assert Was(states, i, p, At(states[i].disk, p));
    }
  }

  /** A plan decides an action on an unchanged entry, or reports the one it decided on. */
  lemma PlanIsGrounded(look: Book, base: Tree, remote: Tree, plan: SyncPlan, o: Options, p: Path)
    requires o.mode == TwoWay && IsPlan(plan, base, Shown(look), remote, o) && (p in plan.pull || p in plan.deleteLocal)
    ensures Grounded(ActionFor(look, base, plan, p), Conflicts(look, plan))
  {
    assert Find(Shown(look), p) == At(look, p).entry;
    NoSilentLoss(plan, base, Shown(look), remote, o, p);
    hide IsPlan, Classify, Changed, Shown;
  }

  lemma ReportsStay(states: seq<System>, steps: seq<Step>, o: Options, i: nat)
    requires Run(states, steps, o) && i < |steps|
    ensures states[i].reported <= states[i + 1].reported
  {
    assert states[i + 1] == Next(states[i], steps[i]);
    hide Run, DiskAfter, At, ActionFor, Conflicts;
  }

  /** What was known stays known, also of fewer actions, reservations and notes. */
  lemma KnownStays(states: seq<System>, i: nat)
    requires i + 1 < |states| && Invariant(states, i) && states[i].reported <= states[i + 1].reported
    ensures var s := states[i];
            && BookWas(states, i + 1, s.local) && LooksWere(states, i + 1, s.looks)
            && ActionsWere(states, i + 1, s.deletes) && ActionsWere(states, i + 1, s.wanted)
            && PullsWere(states, i + 1, s.pulling) && NotesWere(states, i + 1, s.notes)
  {
    var s := states[i];
    WasStays(states, i, s.local);
    forall k | 0 <= k < |s.looks|
      ensures BookWas(states, i + 1, s.looks[k])
    {
      WasStays(states, i, s.looks[k]);
    }
    hide BookWas;
  }

  lemma FewerKnown(states: seq<System>, i: nat, s: System, d: Action, p: Path, n: Note)
    requires i < |states| && ActionsWere(states, i, s.deletes) && ActionsWere(states, i, s.wanted)
    requires PullsWere(states, i, s.pulling) && NotesWere(states, i, s.notes)
    ensures ActionsWere(states, i, s.deletes - {d}) && ActionsWere(states, i, s.wanted - {d})
    ensures PullsWere(states, i, s.pulling - {p}) && NotesWere(states, i, s.notes - {n})
    ensures d in s.wanted ==> PullsWere(states, i, s.pulling[d.path := d])
    ensures Was(states, i, n.path, n.stamp) ==> NotesWere(states, i, s.notes + {n})
    ensures n in s.notes ==> Was(states, i, n.path, n.stamp)
  {
    hide Was, Grounded;
  }

  lemma ObservedWas(states: seq<System>, i: nat, b: Book, p: Path, st: Stamped)
    requires i < |states| && BookWas(states, i, b) && Was(states, i, p, st)
    ensures BookWas(states, i, b[p := st])
  {
    var after := b[p := st];
    forall q
      ensures Was(states, i, q, At(after, q))
    {
      assert Was(states, i, q, At(b, q));
    }
  }

  lemma OneMoreLook(states: seq<System>, i: nat, looks: seq<Book>, look: Book)
    requires i < |states| && LooksWere(states, i, looks) && BookWas(states, i, look)
    ensures LooksWere(states, i, looks + [look])
  {
    hide BookWas;
  }

  lemma PlanKeepsInvariant(states: seq<System>, steps: seq<Step>, o: Options, i: nat)
    requires Run(states, steps, o) && o.mode == TwoWay && i < |steps| && steps[i].Plan? && Invariant(states, i)
    ensures Invariant(states, i + 1)
  {
    var s, step := states[i], steps[i];
    assert Enabled(s, step, o) && states[i + 1] == Next(s, step);
    DiskWas(states, steps, o, i);
    ReportsStay(states, steps, o, i);
    KnownStays(states, i);
    var look, plan := s.looks[step.i], step.plan;
    forall p | p in plan.pull || p in plan.deleteLocal
      ensures ActionWas(states, i + 1, ActionFor(look, s.base, plan, p))
    {
      PlanIsGrounded(look, s.base, step.remote, plan, o, p);
      assert Was(states, i + 1, p, At(look, p));
      hide Conflicts, Classify, IsPlan, At;
    }
    hide BookWas, ActionWas, IsPlan, Enabled, Conflicts;
  }

  lemma StepKeepsInvariant(states: seq<System>, steps: seq<Step>, o: Options, i: nat)
    requires Run(states, steps, o) && o.mode == TwoWay && i < |steps| && Invariant(states, i)
    ensures Invariant(states, i + 1)
  {
    var s, step := states[i], steps[i];
    assert Enabled(s, step, o) && states[i + 1] == Next(s, step);
    DiskWas(states, steps, o, i);
    ReportsStay(states, steps, o, i);
    KnownStays(states, i);
    WasStays(states, i, s.disk);
    hide BookWas, LooksWere, ActionsWere, PullsWere, NotesWere, IsPlan, Was, At, DiskAfter, Run, Written;
    match step
    case Observe(p) => FewerKnown(states, i + 1, s, Action(p, At(s.disk, p), None), p, Note(p, At(s.disk, p)));
    case Look => OneMoreLook(states, i + 1, s.looks, s.local);
    case Plan(_, _, _) => PlanKeepsInvariant(states, steps, o, i);
    case Remove(d, _) => FewerKnown(states, i + 1, s, d, d.path, Note(d.path, Stamped(None, s.clock + 1)));
    case Reserve(d) => FewerKnown(states, i + 1, s, d, d.path, Note(d.path, d.saw));
    case Land(p, m) => FewerKnown(states, i + 1, s, s.pulling[p], p, Note(p, Stamped(Some(m), s.clock + 1)));
    case GiveUp(p, _) => FewerKnown(states, i + 1, s, s.pulling[p], p, Note(p, s.pulling[p].saw));
    case Record(n) =>
      FewerKnown(states, i + 1, s, Action(n.path, n.stamp, None), n.path, n);
      ObservedWas(states, i + 1, s.local, n.path, n.stamp);
    case _ =>
  }

  lemma {:induction false} RunsKeepInvariant(states: seq<System>, steps: seq<Step>, o: Options, i: nat)
    requires Run(states, steps, o) && o.mode == TwoWay && i < |states|
    ensures Invariant(states, i)
  {
    if i == 0 {
      assert forall p :: Was(states, 0, p, At(states[0].disk, p));
    } else {
      RunsKeepInvariant(states, steps, o, i - 1);
      hide Invariant;
      StepKeepsInvariant(states, steps, o, i - 1);
    }
  }

  // ----- What is destroyed ------------------------------------------------------

  /** The k-th event is the last one before the j-th that wrote at p. */
  ghost predicate LastWrite(steps: seq<Step>, p: Path, k: nat, j: nat)
    requires j <= |steps|
  {
    k < j && Writes(steps[k], p) && forall i :: k < i < j ==> !Writes(steps[i], p)
  }

  lemma DiskFollows(states: seq<System>, steps: seq<Step>, o: Options, i: nat)
    requires Run(states, steps, o) && i < |steps|
    ensures states[i + 1].disk == DiskAfter(states[i], steps[i]) && states[i + 1].clock == states[i].clock + 1
    ensures forall p :: Writes(steps[i], p) ==> p == WritePath(steps[i])
  {
    assert states[i + 1] == Next(states[i], steps[i]);
  }

  /** The disk's stamp at p is that of the last write there, with what it wrote; at 0, nothing
      has been written. */
  ghost predicate LastWritten(states: seq<System>, steps: seq<Step>, p: Path, j: nat)
    requires j < |states| && j <= |steps|
  {
    var st := At(states[j].disk, p);
    && states[j].clock == j && st.at <= j
    && if st.at == 0 then st == At(states[0].disk, p) && forall i :: 0 <= i < j ==> !Writes(steps[i], p)
       else LastWrite(steps, p, st.at - 1, j) && st.entry == Written(steps[st.at - 1])
  }

  lemma AtAfter(s: System, step: Step, p: Path)
    ensures At(DiskAfter(s, step), p) == if Writes(step, p) then Stamped(Written(step), s.clock + 1) else At(s.disk, p)
  {
  }

  lemma NextWritten(states: seq<System>, steps: seq<Step>, o: Options, p: Path, j: nat)
    requires Run(states, steps, o) && j < |steps| && |states| == |steps| + 1 && LastWritten(states, steps, p, j)
    ensures LastWritten(states, steps, p, j + 1)
  {
    hide *;
    DiskFollows(states, steps, o, j);
    AtAfter(states[j], steps[j], p);
    if Writes(steps[j], p) {
      JustWritten(states, steps, p, j);
    } else {
      StillWritten(states, steps, p, j);
    }
  }

  lemma JustWritten(states: seq<System>, steps: seq<Step>, p: Path, j: nat)
    requires j < |steps| && |states| == |steps| + 1 && LastWritten(states, steps, p, j)
    requires states[j + 1].clock == states[j].clock + 1
    requires Writes(steps[j], p) && At(states[j + 1].disk, p) == Stamped(Written(steps[j]), states[j].clock + 1)
    ensures LastWritten(states, steps, p, j + 1)
  {
    hide Writes, Written, At;
  }

  lemma StillWritten(states: seq<System>, steps: seq<Step>, p: Path, j: nat)
    requires j < |steps| && |states| == |steps| + 1 && LastWritten(states, steps, p, j)
    requires states[j + 1].clock == states[j].clock + 1
    requires !Writes(steps[j], p) && At(states[j + 1].disk, p) == At(states[j].disk, p)
    ensures LastWritten(states, steps, p, j + 1)
  {
    hide Writes, Written, At;
  }

  lemma FirstWritten(states: seq<System>, steps: seq<Step>, o: Options, p: Path)
    requires Run(states, steps, o) && |states| == |steps| + 1
    ensures LastWritten(states, steps, p, 0)
  {
    hide Writes, Written;
  }

  lemma {:induction false} StampIsLastWrite(states: seq<System>, steps: seq<Step>, o: Options, p: Path, j: nat)
    requires Run(states, steps, o) && j < |states|
    ensures |states| == |steps| + 1 && LastWritten(states, steps, p, j)
  {
    hide *;
    RunLength(states, steps, o);
    if j == 0 {
      FirstWritten(states, steps, o, p);
    } else {
      StampIsLastWrite(states, steps, o, p, j - 1);
      NextWritten(states, steps, o, p, j - 1);
    }
  }

  lemma RunLength(states: seq<System>, steps: seq<Step>, o: Options)
    requires Run(states, steps, o)
    ensures |states| == |steps| + 1
  {
  }

  lemma StampGrows(s: System, step: Step, p: Path)
    requires At(s.disk, p).at <= s.clock
    ensures At(s.disk, p).at <= At(DiskAfter(s, step), p).at
  {
    hide Writes, Written, WritePath;
  }

  lemma StampInTime(states: seq<System>, steps: seq<Step>, p: Path, j: nat)
    requires j < |states| && j <= |steps| && LastWritten(states, steps, p, j)
    ensures states[j].clock == j && At(states[j].disk, p).at <= j
  {
    hide Writes, Written;
  }

  lemma {:induction false} StampsGrow(states: seq<System>, steps: seq<Step>, o: Options, p: Path, i: nat, j: nat)
    requires Run(states, steps, o) && i <= j < |states|
    ensures At(states[i].disk, p).at <= At(states[j].disk, p).at
  {
    hide *;
    RunLength(states, steps, o);
    if i < j {
      StampsGrow(states, steps, o, p, i, j - 1);
      StampIsLastWrite(states, steps, o, p, j - 1);
      StampInTime(states, steps, p, j - 1);
      DiskFollows(states, steps, o, j - 1);
      StampGrows(states[j - 1], steps[j - 1], p);
    }
  }

  /** The ordered action, if any, by which a step writes over what a file holds. */
  function CarriesOut(s: System, step: Step): Option<Action> {
    match step
    case Remove(d, gone) => if gone then Some(d) else None
    case Land(p, _) => if p in s.pulling then Some(s.pulling[p]) else None
    case GiveUp(p, lost) => if lost && p in s.pulling then Some(s.pulling[p]) else None
    case _ => None
  }

  /** The content the baseline held. */
  predicate Keeps(base: Entry, e: Entry) {
    base.Some? && e.Some? && e.value.SameContent(base.value)
  }

  /** Content that is neither the baseline's nor absent: what destroying it loses. */
  predicate Losable(d: Action, e: Entry) {
    e.Some? && !Keeps(d.base, e)
  }

  /** Losing it in silence: no plan so far has reported this very entry in conflict. */
  predicate Silent(s: System, d: Action, st: Stamped) {
    Losable(d, st.entry) && Note(d.path, st) !in s.reported
  }

  /** The step is a plan that reports the entry. */
  predicate Reports(s: System, step: Step, n: Note) {
    step.Plan? && step.i < |s.looks| && n in Conflicts(s.looks[step.i], step.plan)
  }

  ghost predicate ReportedBefore(states: seq<System>, steps: seq<Step>, n: Note, j: nat)
    requires j < |states| && j <= |steps|
  {
    exists i :: 0 <= i < j && Reports(states[i], steps[i], n)
  }

  lemma ReportsAdd(states: seq<System>, steps: seq<Step>, o: Options, n: Note, i: nat)
    requires Run(states, steps, o) && i < |steps|
    ensures n in states[i + 1].reported <==> n in states[i].reported || Reports(states[i], steps[i], n)
  {
    assert Enabled(states[i], steps[i], o) && states[i + 1] == Next(states[i], steps[i]);
    hide Run, DiskAfter, At, ActionFor, Conflicts, IsPlan;
  }

  lemma {:induction false} ReportedIsRecorded(states: seq<System>, steps: seq<Step>, o: Options, n: Note, j: nat)
    requires Run(states, steps, o) && j < |states| && |states| == |steps| + 1
    ensures n in states[j].reported <==> ReportedBefore(states, steps, n, j)
  {
    hide Run, Reports;
    if j == 0 {
      NothingReported(states, steps, o);
    } else {
      ReportedIsRecorded(states, steps, o, n, j - 1);
      ReportsAdd(states, steps, o, n, j - 1);
    }
  }

  lemma NothingReported(states: seq<System>, steps: seq<Step>, o: Options)
    requires Run(states, steps, o)
    ensures states[0].reported == {}
  {
  }

  /** The k-th step's write is lost in silence at the j-th: it was the last at its path, came
      after the entry the plan decided on, left losable content, and no plan before the j-th
      step reported it. */
  ghost predicate LostInSilence(states: seq<System>, steps: seq<Step>, d: Action, k: nat, j: nat)
    requires j < |states| && j <= |steps|
  {
    && d.saw.at <= k && LastWrite(steps, d.path, k, j) && Losable(d, Written(steps[k]))
    && !ReportedBefore(states, steps, Note(d.path, Stamped(Written(steps[k]), k + 1)), j)
  }

  /** Exactly when a round's action destroys content silently, over every run and whatever
      interleaves: the last write at that path, which is what is destroyed, came after the
      entry the plan saw had been put there, was neither a removal nor the baseline's content,
      and was reported in conflict by no plan, this one or any later. What the plan did see
      it destroys only if the baseline held it or it was reported. */
  lemma SilentLossExactly(states: seq<System>, steps: seq<Step>, o: Options, j: nat)
    requires Run(states, steps, o) && o.mode == TwoWay && j < |steps| && CarriesOut(states[j], steps[j]).Some?
    ensures |states| == |steps| + 1
    ensures var d := CarriesOut(states[j], steps[j]).value;
            && d.saw.at <= j && At(states[d.saw.at].disk, d.path) == d.saw
            && (Silent(states[j], d, At(states[j].disk, d.path)) <==> exists k :: LostInSilence(states, steps, d, k, j))
  {
    hide *;
    RunLength(states, steps, o);
    var d := CarriesOut(states[j], steps[j]).value;
    var st := At(states[j].disk, d.path);
    RunsKeepInvariant(states, steps, o, j);
    ActionIsKnown(states, steps, o, j);
    StampIsLastWrite(states, steps, o, d.path, j);
    StampsGrow(states, steps, o, d.path, d.saw.at, j);
    StampInTime(states, steps, d.path, j);
    ReportedIsRecorded(states, steps, o, Note(d.path, st), j);
    if st.at == d.saw.at {
      SeenIsNotSilent(states[j], d, st);
      NothingSince(states, steps, d, j);
    } else {
      LastIsLost(states, steps, d, j);
    }
  }

  lemma SeenIsNotSilent(s: System, d: Action, st: Stamped)
    requires Grounded(d, s.reported) && st == d.saw
    ensures !Silent(s, d, st)
  {
  }

  /** With nothing written since the plan's entry, no later write can be the last. */
  lemma NothingSince(states: seq<System>, steps: seq<Step>, d: Action, j: nat)
    requires j < |states| && j <= |steps| && LastWritten(states, steps, d.path, j)
    requires At(states[j].disk, d.path).at == d.saw.at
    ensures forall k :: !LostInSilence(states, steps, d, k, j)
  {
    hide Writes, Written, ReportedBefore, Losable;
  }

  lemma LastIsLost(states: seq<System>, steps: seq<Step>, d: Action, j: nat)
    requires j < |states| && j <= |steps| && LastWritten(states, steps, d.path, j)
    requires var st := At(states[j].disk, d.path);
             d.saw.at < st.at && (Note(d.path, st) in states[j].reported <==> ReportedBefore(states, steps, Note(d.path, st), j))
    ensures Silent(states[j], d, At(states[j].disk, d.path)) <==> exists k :: LostInSilence(states, steps, d, k, j)
  {
    hide Writes, Written, ReportedBefore, Losable;
    var st := At(states[j].disk, d.path);
    assert st == Stamped(Written(steps[st.at - 1]), st.at - 1 + 1);
    forall k | LostInSilence(states, steps, d, k, j)
      ensures k == st.at - 1
    {
    }
    if Silent(states[j], d, st) {
      assert LostInSilence(states, steps, d, st.at - 1, j);
    }
  }

  lemma ActionIsKnown(states: seq<System>, steps: seq<Step>, o: Options, j: nat)
    requires Run(states, steps, o) && j < |steps| && j < |states| && Invariant(states, j) && CarriesOut(states[j], steps[j]).Some?
    ensures var d := CarriesOut(states[j], steps[j]).value;
            && d.saw.at <= j && At(states[d.saw.at].disk, d.path) == d.saw && Grounded(d, states[j].reported)
            && At(states[At(states[j].disk, d.path).at].disk, d.path) == At(states[j].disk, d.path)
  {
    assert Enabled(states[j], steps[j], o);
    assert Was(states, j, CarriesOut(states[j], steps[j]).value.path, At(states[j].disk, CarriesOut(states[j], steps[j]).value.path));
    hide IsPlan, Grounded;
  }

  // ----- A run that loses an edit -----------------------------------------------

  /** The plan for one path that only the peer has changed. */
  lemma PullOfOne(p: Path, x: FileMeta, y: FileMeta, o: Options)
    requires o.mode == TwoWay && !x.SameContent(y)
    ensures IsPlan(SyncPlan([p], [], [], [], []), map[p := x], map[p := x], map[p := y], o)
  {
    var base, remote := map[p := x], map[p := y];
    forall q
      ensures DecidePath(q, base, base, remote, o) == if q == p then Decision(Pull, false) else Decision(Nothing, false)
    {
    }
    hide DecidePath;
  }

  /** The run: look, plan the pull, reserve it, edit the file, and let the pull land. */
  function LosingSteps(p: Path, y: FileMeta, d: Action, mine: FileMeta): seq<Step> {
    [Look, Plan(0, map[p := y], SyncPlan([p], [], [], [], [])), Reserve(d), Edit(p, Some(mine)), Land(p, y)]
  }

  ghost function LosingStates(p: Path, x: FileMeta, y: FileMeta, d: Action, mine: FileMeta): (states: seq<System>)
    ensures |states| == 6
  {
    var book: Book := map[p := Stamped(Some(x), 0)];
    var s0 := System(0, book, book, map[p := x], [], {}, {}, map[], {}, {});
    var s1 := s0.(clock := 1, looks := [book]);
    var s2 := s1.(clock := 2, wanted := {d});
    var s3 := s2.(clock := 3, wanted := {}, pulling := map[p := d]);
    var s4 := s3.(clock := 4, disk := map[p := Stamped(Some(mine), 4)]);
    var s5 := s4.(clock := 5, disk := map[p := Stamped(Some(y), 5)], pulling := map[], notes := {Note(p, Stamped(Some(y), 5))});
    [s0, s1, s2, s3, s4, s5]
  }

  lemma LosingPlan(p: Path, x: FileMeta, y: FileMeta, d: Action, mine: FileMeta, o: Options)
    requires o.mode == TwoWay && !x.SameContent(y) && d == Action(p, Stamped(Some(x), 0), Some(x))
    ensures var states, steps := LosingStates(p, x, y, d, mine), LosingSteps(p, y, d, mine);
            Enabled(states[1], steps[1], o) && states[2] == Next(states[1], steps[1])
  {
    var book: Book := map[p := Stamped(Some(x), 0)];
    var plan := SyncPlan([p], [], [], [], []);
    PullOfOne(p, x, y, o);
    assert Shown(book) == map[p := x];
    assert ActionFor(book, map[p := x], plan, p) == d;
    hide IsPlan, ActionFor, Shown;
    OneAction(book, map[p := x], plan, p);
  }

  lemma OneAction(look: Book, base: Tree, plan: SyncPlan, p: Path)
    requires plan.pull == [p] && plan.deleteLocal == []
    ensures (set q | q in plan.pull :: ActionFor(look, base, plan, q)) == {ActionFor(look, base, plan, p)}
    ensures (set q | q in plan.deleteLocal :: ActionFor(look, base, plan, q)) == {}
  {
    hide ActionFor;
  }

  /** An edit made after the plan looked and before the pull it ordered has landed is gone,
      and no plan has reported a conflict. */
  lemma LateEditIsLost(p: Path, x: FileMeta, y: FileMeta, mine: FileMeta, o: Options)
    requires o.mode == TwoWay && !x.SameContent(y) && !mine.SameContent(x)
    ensures var d := Action(p, Stamped(Some(x), 0), Some(x));
            var states, steps := LosingStates(p, x, y, d, mine), LosingSteps(p, y, d, mine);
            && Run(states, steps, o) && CarriesOut(states[4], steps[4]) == Some(d)
            && Silent(states[4], d, At(states[4].disk, p)) && At(states[4].disk, p).entry == Some(mine) && At(states[5].disk, p).entry == Some(y)
  {
    var d := Action(p, Stamped(Some(x), 0), Some(x));
    var states, steps := LosingStates(p, x, y, d, mine), LosingSteps(p, y, d, mine);
    forall i | 0 <= i < |steps|
      ensures Enabled(states[i], steps[i], o) && states[i + 1] == Next(states[i], steps[i])
    {
      LosingStep(p, x, y, d, mine, o, i);
    }
    hide Next, Shown, IsPlan, Enabled;
  }

  lemma LosingStep(p: Path, x: FileMeta, y: FileMeta, d: Action, mine: FileMeta, o: Options, i: nat)
    requires o.mode == TwoWay && !x.SameContent(y) && d == Action(p, Stamped(Some(x), 0), Some(x)) && i < 5
    ensures var states, steps := LosingStates(p, x, y, d, mine), LosingSteps(p, y, d, mine);
            Enabled(states[i], steps[i], o) && states[i + 1] == Next(states[i], steps[i])
  {
    hide IsPlan, Shown, ActionFor;
    match i
    case 0 =>
    case 1 => LosingPlan(p, x, y, d, mine, o);
    case 2 =>
    case 3 =>
    case _ =>
  }
}
