/** The convergence check: evaluations that may overlap with each other and with every
    change, the version gate that skips one, and the baselines it persists. */
module EvalGate {
  import opened Types
  import opened Merge

  /** The versions behind the last evaluation that was begun. */
  datatype Gate = Gate(valid: bool, localVer: nat, remoteVer: nat)

  predicate Skips(g: Gate, localVer: nat, remoteVer: nat) {
    g.valid && g.localVer == localVer && g.remoteVer == remoteVer
  }

  function Begun(g: Gate, localVer: nat, remoteVer: nat): Gate {
    if Skips(g, localVer, remoteVer) then g else Gate(true, localVer, remoteVer)
  }

  /** The gate fields of a session. */
  class Evaluator {
    var lastEvalValid: bool
    var lastEvalLocalVer: nat
    var lastEvalRemoteVer: nat

    constructor ()
      ensures View() == Gate(false, 0, 0)
    {
      lastEvalValid, lastEvalLocalVer, lastEvalRemoteVer := false, 0, 0;
    }

    ghost function View(): Gate
      reads this
    {
      Gate(lastEvalValid, lastEvalLocalVer, lastEvalRemoteVer)
    }

    /** Work is under way: whatever was concluded is stale by the time it lands. */
    method Busy()
      modifies this
      ensures View() == old(View()).(valid := false)
    {
      lastEvalValid := false;
    }

    method Begin(localVer: nat, remoteVersion: nat) returns (evaluate: bool)
      modifies this
      ensures evaluate <==> !Skips(old(View()), localVer, remoteVersion)
      ensures View() == Begun(old(View()), localVer, remoteVersion)
    {
      if lastEvalValid && lastEvalLocalVer == localVer && lastEvalRemoteVer == remoteVersion {
        return false;
      }
      lastEvalValid := true;
      lastEvalLocalVer := localVer;
      lastEvalRemoteVer := remoteVersion;
      evaluate := true;
    }
  }

  /** One evaluation: the remote tree copied as it began, then the other two, each under
      the manifest lock but not both at once. */
  datatype Eval = Eval(remote: Tree, local: Option<Tree>, base: Option<Tree>)

  predicate Complete(e: Eval) {
    e.local.Some? && e.base.Some?
  }

  datatype Trees = Trees(local: Tree, base: Tree)

  /** The local tree that became the baseline, and the trees it was judged against. */
  datatype Verdict = Verdict(local: Tree, base: Tree, remote: Tree)

  /** now is what writers have put in place; committed is its value as of the last version
      bump. settled lists each verdict that persisted a baseline. */
  datatype System = System(now: Trees, committed: Trees, version: nat, writing: bool,
                           remote: Tree, remoteVersion: nat,
                           gate: Gate, evals: seq<Eval>, settled: seq<Verdict>)

  datatype Step =
    | Mutate(t: Trees)      // a writer, under the manifest lock, changes a tree
    | Bump                  // and then the version
    | Hear(peer: Tree)         // an update of the peer's tree commits
    | Busy                  // the check finds work under way
    | Begin                 // or passes the gate, and starts an evaluation if it must
    | CopyLocal(i: nat)
    | CopyBase(i: nat)
    | Conclude(i: nat, plan: SyncPlan)  // nothing left to plan: persist the baseline

  ghost predicate Enabled(s: System, step: Step, o: Options) {
    match step
    case Mutate(_) => !s.writing
    case Bump => s.writing
    case Hear(_) => true
    case Busy => true
    case Begin => true
    case CopyLocal(i) => !s.writing && i < |s.evals| && s.evals[i].local.None?
    case CopyBase(i) => !s.writing && i < |s.evals| && s.evals[i].local.Some? && s.evals[i].base.None?
    case Conclude(i, plan) =>
      && !s.writing && i < |s.evals| && Complete(s.evals[i]) && o.mode.TwoWay? && plan.Empty()
      && IsPlan(plan, s.evals[i].base.value, s.evals[i].local.value, s.evals[i].remote, o)
  }

  function Next(s: System, step: Step): System
    requires step.CopyLocal? || step.CopyBase? || step.Conclude? ==> step.i < |s.evals|
    requires step.Conclude? ==> Complete(s.evals[step.i])
  {
    match step
    case Mutate(t) => s.(now := t, writing := true)
    case Bump => s.(committed := s.now, version := s.version + 1, writing := false)
    case Hear(t) => s.(remote := t, remoteVersion := s.remoteVersion + 1)
    case Busy => s.(gate := s.gate.(valid := false))
    case Begin =>
      s.(gate := Begun(s.gate, s.version, s.remoteVersion),
         evals := if Skips(s.gate, s.version, s.remoteVersion) then s.evals else s.evals + [Eval(s.remote, None, None)])
    case CopyLocal(i) => s.(evals := s.evals[i := s.evals[i].(local := Some(s.now.local))])
    case CopyBase(i) => s.(evals := s.evals[i := s.evals[i].(base := Some(s.now.base))])
    case Conclude(i, _) =>
      s.(now := s.now.(base := s.evals[i].local.value), writing := true,
         settled := s.settled + [Verdict(s.evals[i].local.value, s.evals[i].base.value, s.evals[i].remote)])
  }

  ghost predicate Initial(s: System) {
    !s.writing && s.now == s.committed && !s.gate.valid && s.evals == [] && s.settled == []
  }

  ghost predicate Run(states: seq<System>, steps: seq<Step>, o: Options) {
    && |states| == |steps| + 1 && Initial(states[0])
    && forall i :: 0 <= i < |steps| ==> Enabled(states[i], steps[i], o) && states[i + 1] == Next(states[i], steps[i])
  }

  /** What the newest evaluation has copied, while the versions it began with stand, is
      what was committed; nothing later can have got in. */
  ghost predicate Invariant(s: System) {
    && (!s.writing ==> s.now == s.committed)
    && (s.gate.valid ==> s.evals != [] && s.gate.localVer <= s.version && s.gate.remoteVer <= s.remoteVersion)
    && (s.gate.valid ==>
          var e := s.evals[|s.evals| - 1];
          && (s.gate.remoteVer == s.remoteVersion ==> e.remote == s.remote)
          && (s.gate.localVer == s.version ==>
                (e.local.Some? ==> e.local.value == s.committed.local) && (e.base.Some? ==> e.base.value == s.committed.base)))
  }

  lemma StepKeepsInvariant(s: System, step: Step, o: Options)
    requires Invariant(s) && Enabled(s, step, o)
    ensures Invariant(Next(s, step))
  {
    hide IsPlan;
    match step
    case CopyLocal(i) => CopyKeeps(s, i, s.evals[i].(local := Some(s.now.local)));
    case CopyBase(i) => CopyKeeps(s, i, s.evals[i].(base := Some(s.now.base)));
    case _ =>
  }

  lemma CopyKeeps(s: System, i: nat, e: Eval)
    requires Invariant(s) && !s.writing && i < |s.evals|
    requires e == s.evals[i].(local := Some(s.now.local)) || e == s.evals[i].(base := Some(s.now.base))
    ensures Invariant(s.(evals := s.evals[i := e]))
  {
  }

  lemma {:induction false} RunsKeepInvariant(states: seq<System>, steps: seq<Step>, o: Options, i: nat)
    requires Run(states, steps, o) && i < |states|
    ensures Invariant(states[i])
  {
    if i > 0 {
      RunsKeepInvariant(states, steps, o, i - 1);
      StepKeepsInvariant(states[i - 1], steps[i - 1], o);
      hide Invariant, Enabled, Next;
    }
  }

  /** The gate is sound under every interleaving: whenever it would skip, the newest
      evaluation, once it has its copies, ran on exactly the trees a new one would run on,
      so its plan is the plan a new one would make. */
  lemma SkippedEvaluationIsSound(states: seq<System>, steps: seq<Step>, o: Options, i: nat)
    requires Run(states, steps, o) && i < |states|
    requires Skips(states[i].gate, states[i].version, states[i].remoteVersion)
    ensures states[i].evals != []
    ensures var s := states[i];
            var e := s.evals[|s.evals| - 1];
            Complete(e) ==>
              && e == Eval(s.remote, Some(s.committed.local), Some(s.committed.base))
              && forall plan :: IsPlan(plan, e.base.value, e.local.value, e.remote, o) <==>
                                IsPlan(plan, s.committed.base, s.committed.local, s.remote, o)
  {
    RunsKeepInvariant(states, steps, o, i);
  }

  /** And the gate does skip: a second check of the same trees starts no evaluation, unless
      work or a change came between them. */
  lemma UnchangedIsSkipped(s: System)
    ensures Next(Next(s, Begin), Begin) == Next(s, Begin)
    ensures Skips(Next(s, Begin).gate, s.version, s.remoteVersion)
    ensures !Skips(Next(s, Busy).gate, s.version, s.remoteVersion)
  {
  }

  /** A mirror keeps no baseline. */
  lemma {:induction false} MirrorPersistsNothing(states: seq<System>, steps: seq<Step>, o: Options, i: nat)
    requires Run(states, steps, o) && o.mode == Mirror && i < |states|
    ensures states[i].settled == []
  {
    if i > 0 {
      MirrorPersistsNothing(states, steps, o, i - 1);
      assert Enabled(states[i - 1], steps[i - 1], o) && states[i] == Next(states[i - 1], steps[i - 1]);
      hide IsPlan;
    }
  }

  /** Every baseline persisted held, when it was judged, the content of the peer tree it was
      judged against, whatever changed meanwhile, but for the copies this side was told to
      keep though the peer had deleted them; with deletions on, there are none. */
  lemma {:induction false} BaselinesAgreeWithPeer(states: seq<System>, steps: seq<Step>, o: Options, i: nat, k: nat)
    requires Run(states, steps, o) && i < |states| && k < |states[i].settled|
    ensures var v := states[i].settled[k];
            && (forall p :: Agree(Find(v.local, p), Find(v.remote, p)) ||
                            KeepsDeleted(Find(v.local, p), Find(v.remote, p), Find(v.base, p), o))
            && (o.propagateDeletes ==> TreesAgree(v.local, v.remote))
  {
    if i > 0 {
      var s, step := states[i - 1], steps[i - 1];
      assert Enabled(s, step, o) && states[i] == Next(s, step);
      if k < |s.settled| {
        BaselinesAgreeWithPeer(states, steps, o, i - 1, k);
      } else {
        var e := s.evals[step.i];
        PlanIsEmptyExactly(step.plan, e.base.value, e.local.value, e.remote, o);
      }
      hide IsPlan, TreesAgree, Agree, KeepsDeleted;
    }
  }
}
