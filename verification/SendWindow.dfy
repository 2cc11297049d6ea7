/** The literal-byte send window: the sender's counters, the receiver's acknowledgements,
    and the two joined by a pair of FIFO channels. */
module SendWindow {
  import opened Types

  const ACK_INTERVAL: nat := 262144

  // ----- The counters -----------------------------------------------------------

  /** The transfer being served, the literal bytes noted as sent, and those acked. */
  datatype Counters = Counters(xid: nat, sent: nat, acked: nat)

  function Noted(c: Counters, xid: nat, bytes: nat): Counters {
    if c.xid == xid then c.(sent := c.sent + bytes) else c
  }

  /** An ack for another transfer, or one that does not advance, changes nothing. */
  function Acked(c: Counters, xid: nat, bytes: nat): Counters {
    if c.xid == xid && bytes > c.acked then c.(acked := bytes) else c
  }

  predicate MayProceed(c: Counters, xid: nat, window: nat) {
    c.xid != xid || c.acked >= c.sent || c.sent - c.acked <= window
  }

  /** The send-side fields of a session, guarded by their own lock. */
  class Sender {
    var curXid: nat
    var curSent: nat
    var curAcked: nat

    constructor ()
      ensures View() == Counters(0, 0, 0)
    {
      curXid, curSent, curAcked := 0, 0, 0;
    }

    ghost function View(): Counters
      reads this
    {
      Counters(curXid, curSent, curAcked)
    }

    method Begin(xid: nat)
      modifies this
      ensures View() == Counters(xid, 0, 0)
    {
      curXid, curSent, curAcked := xid, 0, 0;
    }

    method NoteSent(xid: nat, bytes: nat)
      modifies this
      ensures View() == Noted(old(View()), xid, bytes)
    {
      if curXid == xid {
        curSent := curSent + bytes;
      }
    }

    method HandleFileAck(xid: nat, bytes: nat)
      modifies this
      ensures View() == Acked(old(View()), xid, bytes)
    {
      if curXid == xid && bytes > curAcked {
        curAcked := bytes;
      }
    }

    /** The condition window_wait sleeps on, while the session runs. */
    method WindowOpen(xid: nat, window: nat) returns (open: bool)
      ensures open == MayProceed(View(), xid, window)
    {
      open := curXid != xid || curAcked >= curSent || curSent - curAcked <= window;
    }
  }

  // ----- The system -------------------------------------------------------------

  datatype Message = Lit(size: nat) | End

  datatype Ack = Ack(xid: nat, bytes: nat)

  /** Where the sender thread is: about to send, between a send and noting it, waiting
      for the window, or done. */
  datatype Phase = Ready | Unnoted(size: nat) | Waiting | Done

  /** todo lists the literal messages still to send; wire counts the literal bytes ever
      put on the channel. */
  datatype System = System(todo: seq<nat>, phase: Phase, counters: Counters, wire: nat,
                           literals: seq<Message>, acks: seq<Ack>,
                           onWire: nat, lastAck: nat, finished: bool)

  datatype Step = Send | Note | Pass | Finish | Receive | HearAck

  predicate Enabled(s: System, step: Step, window: nat) {
    match step
    case Send => s.phase.Ready? && s.todo != []
    case Note => s.phase.Unnoted?
    case Pass => s.phase.Waiting? && MayProceed(s.counters, s.counters.xid, window)
    case Finish => s.phase.Ready? && s.todo == []
    case Receive => s.literals != []
    case HearAck => s.acks != []
  }

  function Next(s: System, step: Step, window: nat): System
    requires Enabled(s, step, window)
  {
    match step
    case Send =>
      s.(todo := s.todo[1..], phase := Unnoted(s.todo[0]), wire := s.wire + s.todo[0],
         literals := s.literals + [Lit(s.todo[0])])
    case Note => s.(phase := Waiting, counters := Noted(s.counters, s.counters.xid, s.phase.size))
    case Pass => s.(phase := Ready)
    case Finish => s.(phase := Done, literals := s.literals + [End])
    case Receive => Received(s.(literals := s.literals[1..]), s.literals[0])
    case HearAck => s.(acks := s.acks[1..], counters := Acked(s.counters, s.acks[0].xid, s.acks[0].bytes))
  }

  /** The receiver acks once enough has arrived since its last ack, and at the end. */
  function Received(s: System, m: Message): System {
    match m
    case Lit(n) =>
      var t := s.(onWire := s.onWire + n);
      if t.onWire - s.lastAck >= ACK_INTERVAL then
        t.(lastAck := t.onWire, acks := t.acks + [Ack(t.counters.xid, t.onWire)])
      else t
    case End => s.(acks := s.acks + [Ack(s.counters.xid, s.onWire)], finished := true)
  }

  /** A transfer starts with fresh counters; acks of earlier transfers may still arrive. */
  predicate Initial(s: System, chunk: nat) {
    && (forall k :: 0 <= k < |s.todo| ==> 1 <= s.todo[k] <= chunk)
    && s.phase == Ready && s.counters.sent == s.counters.acked == s.wire == s.onWire == s.lastAck == 0
    && s.literals == [] && !s.finished
    && forall k :: 0 <= k < |s.acks| ==> s.acks[k].xid != s.counters.xid
  }

  function RunTo(s: System, steps: seq<Step>, window: nat): Option<System> {
    if steps == [] then Some(s) else
      var t := RunTo(s, steps[..|steps| - 1], window);
      var step := steps[|steps| - 1];
      if t.Some? && Enabled(t.value, step, window) then Some(Next(t.value, step, window)) else None
  }

  // ----- The invariant ----------------------------------------------------------

  function Total(todo: seq<nat>): nat {
    if todo == [] then 0 else todo[0] + Total(todo[1..])
  }

  function Bytes(ms: seq<Message>): nat {
    if ms == [] then 0 else (if ms[0].Lit? then ms[0].size else 0) + Bytes(ms[1..])
  }

  /** What the sender will have heard acked once every ack in flight has arrived. */
  function Heard(acks: seq<Ack>, xid: nat, acked: nat): nat {
    if acks == [] then acked
    else Heard(acks[1..], xid, if acks[0].xid == xid && acks[0].bytes > acked then acks[0].bytes else acked)
  }

  lemma {:induction false} BytesSnoc(ms: seq<Message>, m: Message)
    ensures Bytes(ms + [m]) == Bytes(ms) + (if m.Lit? then m.size else 0)
  {
    if ms == [] {
      assert [] + [m] == [m];
      assert [m][1..] == [];
    } else {
      BytesSnoc(ms[1..], m);
      assert (ms + [m])[1..] == ms[1..] + [m];
    }
  }

  lemma {:induction false} HeardSnoc(acks: seq<Ack>, a: Ack, xid: nat, acked: nat)
    ensures Heard(acks + [a], xid, acked) ==
            (if a.xid == xid && a.bytes > Heard(acks, xid, acked) then a.bytes else Heard(acks, xid, acked))
  {
    if acks == [] {
      assert [] + [a] == [a];
      assert [a][1..] == [];
    } else {
      HeardSnoc(acks[1..], a, xid, if acks[0].xid == xid && acks[0].bytes > acked then acks[0].bytes else acked);
      assert (acks + [a])[1..] == acks[1..] + [a];
    }
  }

  lemma {:induction false} HeardGrows(acks: seq<Ack>, xid: nat, acked: nat)
    ensures acked <= Heard(acks, xid, acked)
    ensures (forall k :: 0 <= k < |acks| ==> acks[k].xid != xid) ==> Heard(acks, xid, acked) == acked
  {
    if acks != [] {
      HeardGrows(acks[1..], xid, if acks[0].xid == xid && acks[0].bytes > acked then acks[0].bytes else acked);
    }
  }

  ghost predicate Conserved(s: System, total: nat) {
    && s.wire == s.onWire + Bytes(s.literals)
    && s.wire + Total(s.todo) == total
    && s.counters.sent + (if s.phase.Unnoted? then s.phase.size else 0) == s.wire
  }

  ghost predicate AckDiscipline(s: System) {
    && s.lastAck <= s.onWire < s.lastAck + ACK_INTERVAL
    && Heard(s.acks, s.counters.xid, s.counters.acked) == (if s.finished then s.onWire else s.lastAck)
  }

  ghost predicate Bounded(s: System, window: nat, chunk: nat) {
    && (s.phase.Ready? || s.phase.Unnoted? ==> s.counters.sent <= s.counters.acked + window)
    && (s.phase.Unnoted? ==> s.phase.size <= chunk)
    && s.wire <= s.counters.acked + window + chunk
    && (forall k :: 0 <= k < |s.todo| ==> 1 <= s.todo[k] <= chunk)
  }

  ghost predicate EndsOnce(s: System) {
    && (s.phase.Done? ==> s.todo == [] && (s.finished <==> s.literals == []))
    && (!s.phase.Done? ==> !s.finished)
    && (forall k :: 0 <= k < |s.literals| ==> (s.literals[k] == End <==> s.phase.Done? && k == |s.literals| - 1))
  }

  ghost predicate Invariant(s: System, window: nat, chunk: nat, total: nat) {
    Conserved(s, total) && AckDiscipline(s) && Bounded(s, window, chunk) && EndsOnce(s)
  }

  lemma InitialSatisfies(s: System, window: nat, chunk: nat)
    requires Initial(s, chunk)
    ensures Invariant(s, window, chunk, Total(s.todo))
  {
    HeardGrows(s.acks, s.counters.xid, 0);
  }

  lemma ReceiveConserves(s: System, window: nat, chunk: nat, total: nat)
    requires Conserved(s, total) && Bounded(s, window, chunk) && s.literals != []
    ensures Conserved(Next(s, Receive, window), total) && Bounded(Next(s, Receive, window), window, chunk)
  {
    assert Bytes(s.literals) == (if s.literals[0].Lit? then s.literals[0].size else 0) + Bytes(s.literals[1..]);
    hide Bytes, Total;
  }

  lemma ReceiveAcks(s: System, window: nat)
    requires AckDiscipline(s) && !s.finished && s.literals != []
    ensures AckDiscipline(Next(s, Receive, window))
  {
    var m := s.literals[0];
    HeardSnoc(s.acks, Ack(s.counters.xid, s.onWire + (if m.Lit? then m.size else 0)), s.counters.xid, s.counters.acked);
    hide Heard;
  }

  lemma ReceiveEnds(s: System, window: nat)
    requires EndsOnce(s) && s.literals != []
    ensures !s.finished && EndsOnce(Next(s, Receive, window))
  {
    var rest := s.literals[1..];
    assert forall k :: 0 <= k < |rest| ==> rest[k] == s.literals[k + 1];
    assert s.literals[0] == End <==> s.phase.Done? && rest == [];
  }

  lemma ReceiveKeeps(s: System, window: nat, chunk: nat, total: nat)
    requires Invariant(s, window, chunk, total) && s.literals != []
    ensures Invariant(Next(s, Receive, window), window, chunk, total)
  {
    hide Conserved, AckDiscipline, Bounded, EndsOnce, Next;
    ReceiveConserves(s, window, chunk, total);
    ReceiveEnds(s, window);
    ReceiveAcks(s, window);
  }

  lemma StepKeepsInvariant(s: System, step: Step, window: nat, chunk: nat, total: nat)
    requires Invariant(s, window, chunk, total) && Enabled(s, step, window)
    ensures Invariant(Next(s, step, window), window, chunk, total)
  {
    match step
    case Send => BytesSnoc(s.literals, Lit(s.todo[0]));
    case Finish => BytesSnoc(s.literals, End);
    case Receive => ReceiveKeeps(s, window, chunk, total);
    case _ =>
  }

  lemma {:induction false} RunsKeepInvariant(s: System, steps: seq<Step>, window: nat, chunk: nat)
    requires Initial(s, chunk) && RunTo(s, steps, window).Some?
    ensures Invariant(RunTo(s, steps, window).value, window, chunk, Total(s.todo))
  {
    if steps == [] {
      InitialSatisfies(s, window, chunk);
    } else {
      RunsKeepInvariant(s, steps[..|steps| - 1], window, chunk);
      StepKeepsInvariant(RunTo(s, steps[..|steps| - 1], window).value, steps[|steps| - 1], window, chunk, Total(s.todo));
    }
  }

  /** Safety over every run, even when an ack lands between a send and noting it: the
      literal bytes on the wire never run more than a window and a chunk ahead of what was
      acked, and acked is at most received is at most sent. */
  lemma WindowIsRespected(s: System, steps: seq<Step>, window: nat, chunk: nat)
    requires Initial(s, chunk) && RunTo(s, steps, window).Some?
    ensures var t := RunTo(s, steps, window).value;
            && t.wire - t.counters.acked <= window + chunk
            && t.counters.acked <= t.onWire <= t.wire <= Total(s.todo)
  {
    RunsKeepInvariant(s, steps, window, chunk);
    var t := RunTo(s, steps, window).value;
    HeardGrows(t.acks, t.counters.xid, t.counters.acked);
  }

  // ----- Progress ---------------------------------------------------------------

  /** The sender waits for the window with nothing in flight either way. */
  predicate Stuck(s: System, window: nat) {
    s.phase.Waiting? && !MayProceed(s.counters, s.counters.xid, window) && s.literals == [] && s.acks == []
  }

  lemma WideWindowNeverSticks(s: System, steps: seq<Step>, window: nat, chunk: nat)
    requires Initial(s, chunk) && RunTo(s, steps, window).Some? && ACK_INTERVAL - 1 <= window
    ensures !Stuck(RunTo(s, steps, window).value, window)
  {
    RunsKeepInvariant(s, steps, window, chunk);
  }

  /** Steps that send one byte at a time and let it be received. */
  function OneByOne(n: nat): seq<Step> {
    if n == 0 then [] else OneByOne(n - 1) + [Send, Note, Receive, Pass]
  }

  function Singles(n: nat): seq<nat> {
    seq(n, _ => 1)
  }

  function Fresh(todo: seq<nat>): System {
    System(todo, Ready, Counters(1, 0, 0), 0, [], [], 0, 0, false)
  }

  function Drained(n: nat, left: nat): System {
    System(Singles(left), Ready, Counters(1, n, 0), n, [], [], n, 0, false)
  }

  lemma RunSnoc(s: System, steps: seq<Step>, step: Step, window: nat)
    requires RunTo(s, steps, window).Some? && Enabled(RunTo(s, steps, window).value, step, window)
    ensures RunTo(s, steps + [step], window) == Some(Next(RunTo(s, steps, window).value, step, window))
  {
    assert (steps + [step])[..|steps|] == steps;
  }

  lemma ThreeSteps(s: System, steps: seq<Step>, window: nat, a: Step, b: Step, c: Step)
    requires RunTo(s, steps, window).Some?
    requires var t := RunTo(s, steps, window).value;
             Enabled(t, a, window) && Enabled(Next(t, a, window), b, window) &&
             Enabled(Next(Next(t, a, window), b, window), c, window)
    ensures RunTo(s, steps + [a, b, c], window) ==
            Some(Next(Next(Next(RunTo(s, steps, window).value, a, window), b, window), c, window))
  {
    hide *;
    RunSnoc(s, steps, a, window);
    RunSnoc(s, steps + [a], b, window);
    RunSnoc(s, steps + [a] + [b], c, window);
    assert steps + [a, b, c] == steps + [a] + [b] + [c];
  }

  lemma {:induction false} TrickleRuns(window: nat, n: nat)
    requires window < ACK_INTERVAL - 1 && n <= window
    ensures RunTo(Fresh(Singles(window + 1)), OneByOne(n), window) == Some(Drained(n, window + 1 - n))
  {
    var s := Fresh(Singles(window + 1));
    if n > 0 {
      TrickleRuns(window, n - 1);
      TrickleOnce(s, OneByOne(n - 1), window, n - 1);
      RunSnoc(s, OneByOne(n - 1) + [Send, Note, Receive], Pass, window);
      assert OneByOne(n) == OneByOne(n - 1) + [Send, Note, Receive] + [Pass];
    }
  }

  /** One more byte sent, noted and received, too few to be acked. */
  lemma TrickleOnce(s: System, steps: seq<Step>, window: nat, n: nat)
    requires n <= window < ACK_INTERVAL - 1
    requires RunTo(s, steps, window) == Some(Drained(n, window + 1 - n))
    ensures RunTo(s, steps + [Send, Note, Receive], window) == Some(Drained(n + 1, window - n).(phase := Waiting))
  {
    ThreeSteps(s, steps, window, Send, Note, Receive);
    assert Singles(window + 1 - n)[1..] == Singles(window - n);
    assert [] + [Lit(1)] == [Lit(1)] && [Lit(1)][1..] == [];
  }

  /** Exactly when a transfer can block forever: some transfer in messages of at most
      chunk bytes has a stuck run if and only if the window is below the ack interval
      less one. */
  lemma StuckExactlyBelowAckInterval(window: nat, chunk: nat)
    requires 1 <= chunk
    ensures window < ACK_INTERVAL - 1 <==>
            exists s, steps :: Initial(s, chunk) && RunTo(s, steps, window).Some? && Stuck(RunTo(s, steps, window).value, window)
  {
    if window < ACK_INTERVAL - 1 {
      var s, steps := Fresh(Singles(window + 1)), OneByOne(window);
      TrickleRuns(window, window);
      TrickleOnce(s, steps, window, window);
      assert Initial(s, chunk);
      assert Stuck(RunTo(s, steps + [Send, Note, Receive], window).value, window);
    } else {
      forall s, steps | Initial(s, chunk) && RunTo(s, steps, window).Some?
        ensures !Stuck(RunTo(s, steps, window).value, window)
      {
        WideWindowNeverSticks(s, steps, window, chunk);
      }
    }
  }

  function Work(s: System): nat {
    5 * |s.todo| + (match s.phase case Ready => 3 case Unnoted(_) => 5 case Waiting => 4 case Done => 0)
    + 2 * |s.literals| + |s.acks|
  }

  lemma {:induction false} EveryStepIsProgress(s: System, steps: seq<Step>, window: nat)
    requires RunTo(s, steps, window).Some?
    ensures |steps| + Work(RunTo(s, steps, window).value) <= Work(s)
  {
    if steps != [] {
      EveryStepIsProgress(s, steps[..|steps| - 1], window);
    }
  }

  /** Every run is finite, and with a wide enough window a run that can go no further has
      delivered and acked everything: the transfer completes under any schedule. */
  lemma TransfersComplete(s: System, steps: seq<Step>, window: nat, chunk: nat)
    requires Initial(s, chunk) && RunTo(s, steps, window).Some? && ACK_INTERVAL - 1 <= window
    ensures |steps| <= 5 * |s.todo| + 3 + |s.acks|
    ensures var t := RunTo(s, steps, window).value;
            (forall step :: !Enabled(t, step, window)) ==>
              t.finished && t.onWire == t.counters.acked == Total(s.todo)
  {
    EveryStepIsProgress(s, steps, window);
    RunsKeepInvariant(s, steps, window, chunk);
    var t := RunTo(s, steps, window).value;
    if forall step :: !Enabled(t, step, window) {
      assert !Enabled(t, Send, window) && !Enabled(t, Note, window) && !Enabled(t, Pass, window);
      assert !Enabled(t, Finish, window) && !Enabled(t, Receive, window) && !Enabled(t, HearAck, window);
      WideWindowNeverSticks(s, steps, window, chunk);
    }
  }
}
