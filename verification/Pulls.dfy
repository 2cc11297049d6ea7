/** The pull window: reservations, the requests in flight, the serving peer, and the
    replies that hand reservations back. */
module Pulls {
  import opened Types

  // ----- The reservation book ---------------------------------------------------

  /** Paths this side is pulling, and those of them not yet requested, in order. */
  datatype Book = Book(pulling: set<Path>, queue: seq<Path>)

  function Reserve(b: Book, p: Path): Book {
    if p in b.pulling then b else Book(b.pulling + {p}, b.queue + [p])
  }

  function ReserveAll(b: Book, ps: seq<Path>): Book {
    if ps == [] then b else Reserve(ReserveAll(b, ps[..|ps| - 1]), ps[|ps| - 1])
  }

  /** Every path of a plan ends reserved, nothing else is, and the ones that were not before are
      queued behind the others, once each. */
  lemma {:induction false} PlanIsReserved(b: Book, ps: seq<Path>)
    ensures var r := ReserveAll(b, ps);
            && (forall p :: p in r.pulling <==> p in b.pulling || p in ps)
            && b.queue <= r.queue
            && (forall k :: |b.queue| <= k < |r.queue| ==> r.queue[k] in ps && r.queue[k] !in b.pulling)
            && |r.queue| - |b.queue| == |r.pulling| - |b.pulling|
  {
    if ps != [] {
      hide ReserveAll;
      var before, p := ps[..|ps| - 1], ps[|ps| - 1];
      PlanIsReserved(b, before);
      ReserveLast(b, ps);
      assert forall q :: q in ps <==> q in before || q == p;
    }
  }

  lemma ReserveLast(b: Book, ps: seq<Path>)
    requires ps != []
    ensures ReserveAll(b, ps) == Reserve(ReserveAll(b, ps[..|ps| - 1]), ps[|ps| - 1])
  {
  }

  predicate MayRequest(b: Book, max: nat) {
    b.queue != [] && (if |b.pulling| > |b.queue| then |b.pulling| - |b.queue| else 0) < max
  }

  class PullWindow {
    var pulling: set<Path>
    var queue: seq<Path>

    constructor ()
      ensures View() == Book({}, [])
    {
      pulling, queue := {}, [];
    }

    ghost function View(): Book
      reads this
    {
      Book(pulling, queue)
    }

    /** Reserve what a plan wants pulled. */
    method ReservePlan(ps: seq<Path>)
      modifies this
      ensures View() == ReserveAll(old(View()), ps)
    {
      for i := 0 to |ps|
        invariant View() == ReserveAll(old(View()), ps[..i])
      {
        assert ps[..i + 1][..i] == ps[..i];
        if ps[i] !in pulling {
          pulling := pulling + {ps[i]};
          queue := queue + [ps[i]];
        }
      }
      assert ps[..|ps|] == ps;
    }

    /** What the requester thread does each time it may: take the oldest queued path. */
    method NextRequest(max: nat) returns (p: Option<Path>)
      modifies this
      ensures MayRequest(old(View()), max) ==>
                p == Some(old(queue)[0]) && View() == old(View()).(queue := old(queue)[1..])
      ensures !MayRequest(old(View()), max) ==> p == None && View() == old(View())
    {
      var inFlight := if |pulling| > |queue| then |pulling| - |queue| else 0;
      if queue == [] || inFlight >= max {
        return None;
      }
      p := Some(queue[0]);
      queue := queue[1..];
    }

    method ReleasePull(p: Path)
      modifies this
      ensures View() == old(View()).(pulling := old(pulling) - {p})
    {
      pulling := pulling - {p};
    }
  }

  // ----- The system -------------------------------------------------------------

  /** A request, with or without a signature attached. */
  datatype Request = Request(path: Path, hasSig: bool)

  /** A request being served; started once its FileStart has gone out. */
  datatype Job = Job(path: Path, hasSig: bool, xid: nat)
  datatype Active = Idle | Taken(job: Job) | Started(path: Path, isDelta: bool, xid: nat)

  /** The replies that matter to reservations; the data between them does not. */
  datatype Reply = NotFound(path: Path) | Start(xid: nat, path: Path, isDelta: bool) | End(xid: nat)

  datatype Open = Open(path: Path, isDelta: bool)

  datatype System = System(book: Book, asking: Option<Path>, requests: seq<Request>,
                           serveQ: seq<Job>, active: Active, nextXid: nat,
                           replies: seq<Reply>, incoming: map<nat, Open>,
                           granted: multiset<Path>, released: multiset<Path>)

  datatype Step =
    | Plan(p: Path)                 // a reconcile wants p
    | Pick                          // the requester takes the next path
    | Ask(hasSig: bool)             // and sends its request
    | Decline                       // the peer refuses the oldest request
    | Queue                         // or queues it
    | Take                          // the sender thread takes a job
    | Gone                          // finds the file gone
    | Begin(isDelta: bool)          // or starts streaming it
    | Finish                        // and ends
    | Hear(verified: bool)          // the oldest reply arrives
    | Break(xid: nat)               // an open transfer fails before its end is heard

  predicate Enabled(s: System, step: Step, max: nat) {
    match step
    case Plan(_) => true
    case Pick => s.asking.None? && MayRequest(s.book, max)
    case Ask(_) => s.asking.Some?
    case Decline => s.requests != []
    case Queue => s.requests != []
    case Take => s.active.Idle? && s.serveQ != []
    case Gone => s.active.Taken?
    case Begin(isDelta) => s.active.Taken? && (isDelta ==> s.active.job.hasSig)
    case Finish => s.active.Started?
    case Hear(_) => s.replies != []
    case Break(xid) => xid in s.incoming
  }

  function Release(s: System, p: Path): System {
    s.(book := s.book.(pulling := s.book.pulling - {p}), released := s.released + multiset{p})
  }

  /** A delta that fails verification keeps its reservation and is asked for whole; every
      other end of a transfer, and every refusal, releases the path. */
  function Heard(s: System, m: Reply, verified: bool): System {
    match m
    case NotFound(p) => Release(s, p)
    case Start(xid, p, isDelta) => s.(incoming := s.incoming[xid := Open(p, isDelta)])
    case End(xid) =>
      if xid !in s.incoming then s
      else
        var t := s.incoming[xid];
        var closed := s.(incoming := s.incoming - {xid});
        if !verified && t.isDelta then closed.(requests := closed.requests + [Request(t.path, false)])
        else Release(closed, t.path)
  }

  function Next(s: System, step: Step, max: nat): System
    requires Enabled(s, step, max)
  {
    match step
    case Plan(p) =>
      s.(book := Reserve(s.book, p), granted := if p in s.book.pulling then s.granted else s.granted + multiset{p})
    case Pick => s.(book := s.book.(queue := s.book.queue[1..]), asking := Some(s.book.queue[0]))
    case Ask(hasSig) => s.(asking := None, requests := s.requests + [Request(s.asking.value, hasSig)])
    case Decline => s.(requests := s.requests[1..], replies := s.replies + [NotFound(s.requests[0].path)])
    case Queue =>
      s.(requests := s.requests[1..], nextXid := s.nextXid + 1,
         serveQ := s.serveQ + [Job(s.requests[0].path, s.requests[0].hasSig, s.nextXid)])
    case Take => s.(active := Taken(s.serveQ[0]), serveQ := s.serveQ[1..])
    case Gone => s.(active := Idle, replies := s.replies + [NotFound(s.active.job.path)])
    case Begin(isDelta) =>
      var j := s.active.job;
      s.(active := Started(j.path, isDelta, j.xid), replies := s.replies + [Start(j.xid, j.path, isDelta)])
    case Finish => s.(active := Idle, replies := s.replies + [End(s.active.xid)])
    case Hear(verified) => Heard(s.(replies := s.replies[1..]), s.replies[0], verified)
    case Break(xid) => Release(s.(incoming := s.incoming - {xid}), s.incoming[xid].path)
  }

  predicate Initial(s: System) {
    && s.book == Book({}, []) && s.asking.None? && s.requests == [] && s.serveQ == [] && s.active.Idle?
    && s.replies == [] && s.incoming == map[] && s.granted == s.released == multiset{}
  }

  function RunTo(s: System, steps: seq<Step>, max: nat): Option<System> {
    if steps == [] then Some(s) else
      var t := RunTo(s, steps[..|steps| - 1], max);
      var step := steps[|steps| - 1];
      if t.Some? && Enabled(t.value, step, max) then Some(Next(t.value, step, max)) else None
  }

  // ----- Where each reservation is ----------------------------------------------

  function RequestPaths(rs: seq<Request>): multiset<Path> {
    if rs == [] then multiset{} else multiset{rs[0].path} + RequestPaths(rs[1..])
  }

  function JobPaths(js: seq<Job>): multiset<Path> {
    if js == [] then multiset{} else multiset{js[0].path} + JobPaths(js[1..])
  }

  /** The path being served, unless its transfer is lost: started, and neither open nor on
      its way to being opened. */
  function ActivePath(a: Active, left: map<nat, Open>): multiset<Path> {
    match a
    case Idle => multiset{}
    case Taken(j) => multiset{j.path}
    case Started(p, _, xid) => if xid in left then multiset{p} else multiset{}
  }

  /** What one reply does to the set of open transfers. */
  function Opened(open: map<nat, Open>, m: Reply): map<nat, Open> {
    match m
    case NotFound(_) => open
    case Start(xid, p, isDelta) => open[xid := Open(p, isDelta)]
    case End(xid) => open - {xid}
  }

  /** The transfers still open once every reply in flight is heard. */
  function Left(open: map<nat, Open>, replies: seq<Reply>): map<nat, Open>
    decreases replies
  {
    if replies == [] then open else Left(Opened(open, replies[0]), replies[1..])
  }

  /** The server streams one file at a time, so at most one transfer is open at once: an End
      in flight closes the one that is, if it has not failed, and what is left once all is
      heard is what the server is streaming, or nothing. */
  predicate Flows(open: map<nat, Open>, replies: seq<Reply>, streaming: map<nat, Open>)
    decreases replies
  {
    if replies == [] then open == map[] || open == streaming
    else Follows(open, replies[0]) && Flows(Opened(open, replies[0]), replies[1..], streaming)
  }

  predicate Follows(open: map<nat, Open>, m: Reply) {
    match m
    case NotFound(_) => true
    case Start(_, _, _) => open == map[]
    case End(xid) => open == map[] || open.Keys == {xid}
  }

  /** The path whose reservation a reply settles. */
  function Settles(open: map<nat, Open>, m: Reply): multiset<Path> {
    match m
    case NotFound(p) => multiset{p}
    case Start(_, _, _) => multiset{}
    case End(xid) => if xid in open then multiset{open[xid].path} else multiset{}
  }

  function ReplyPaths(open: map<nat, Open>, replies: seq<Reply>): multiset<Path>
    decreases replies
  {
    if replies == [] then multiset{}
    else Settles(open, replies[0]) + ReplyPaths(Opened(open, replies[0]), replies[1..])
  }

  function Streaming(a: Active): map<nat, Open> {
    if a.Started? then map[a.xid := Open(a.path, a.isDelta)] else map[]
  }

  function AskingPath(asking: Option<Path>): multiset<Path> {
    if asking.Some? then multiset{asking.value} else multiset{}
  }

  /** The paths not yet being served: about to be asked for, requested, queued. */
  function Waiting(s: System): multiset<Path> {
    AskingPath(s.asking) + RequestPaths(s.requests) + JobPaths(s.serveQ)
  }

  /** The path being served, and those that replies on their way will settle. */
  function Replying(s: System): multiset<Path> {
    ActivePath(s.active, Left(s.incoming, s.replies)) + ReplyPaths(s.incoming, s.replies)
  }

  function InFlight(s: System): multiset<Path> {
    Waiting(s) + Replying(s)
  }

  ghost predicate Invariant(s: System, max: nat) {
    && multiset(s.book.queue) + InFlight(s) == multiset(s.book.pulling)
    && Flows(s.incoming, s.replies, Streaming(s.active))
    && |InFlight(s)| <= max
    && s.granted == s.released + multiset(s.book.pulling)
  }

  lemma {:induction false} RequestSnoc(rs: seq<Request>, r: Request)
    ensures RequestPaths(rs + [r]) == RequestPaths(rs) + multiset{r.path}
  {
    if rs == [] {
      assert [] + [r] == [r] && [r][1..] == [];
    } else {
      RequestSnoc(rs[1..], r);
      assert (rs + [r])[1..] == rs[1..] + [r];
    }
  }

  lemma {:induction false} JobSnoc(js: seq<Job>, j: Job)
    ensures JobPaths(js + [j]) == JobPaths(js) + multiset{j.path}
  {
    if js == [] {
      assert [] + [j] == [j] && [j][1..] == [];
    } else {
      JobSnoc(js[1..], j);
      assert (js + [j])[1..] == js[1..] + [j];
    }
  }

  /** A reply sent now is heard with open what is left by then. */
  lemma {:induction false} ReplySnoc(open: map<nat, Open>, replies: seq<Reply>, streaming: map<nat, Open>, m: Reply)
    requires Flows(open, replies, streaming) && Follows(streaming, m) && (m.End? ==> m.xid in streaming)
    ensures Flows(open, replies + [m], Opened(streaming, m))
    ensures ReplyPaths(open, replies + [m]) == ReplyPaths(open, replies) + Settles(Left(open, replies), m)
    ensures Left(open, replies + [m]) == Opened(Left(open, replies), m)
    ensures Left(open, replies) == map[] || Left(open, replies) == streaming
    decreases |replies|
  {
    hide *;
    if replies == [] {
      NoReplies(open, streaming);
      LastFollows(open, streaming, m);
      NoReplies(Opened(open, m), Opened(streaming, m));
      FlowsCons(open, m, [], Opened(streaming, m));
      assert replies + [m] == [m] + [];
    } else {
      var head, tail := replies[0], replies[1..];
      assert replies == [head] + tail;
      FlowsCons(open, head, tail, streaming);
      FlowsCons(open, head, tail + [m], Opened(streaming, m));
      ReplySnoc(Opened(open, head), tail, streaming, m);
      assert replies + [m] == [head] + (tail + [m]);
    }
  }

  lemma LastFollows(open: map<nat, Open>, streaming: map<nat, Open>, m: Reply)
    requires Follows(streaming, m) && (m.End? ==> m.xid in streaming) && (open == map[] || open == streaming)
    ensures Follows(open, m) && (Opened(open, m) == map[] || Opened(open, m) == Opened(streaming, m))
  {
  }

  lemma NoReplies(open: map<nat, Open>, streaming: map<nat, Open>)
    ensures Flows(open, [], streaming) <==> open == map[] || open == streaming
    ensures ReplyPaths(open, []) == multiset{} && Left(open, []) == open
  {
  }

  lemma FlowsCons(open: map<nat, Open>, head: Reply, tail: seq<Reply>, streaming: map<nat, Open>)
    ensures Flows(open, [head] + tail, streaming) <==> Follows(open, head) && Flows(Opened(open, head), tail, streaming)
    ensures ReplyPaths(open, [head] + tail) == Settles(open, head) + ReplyPaths(Opened(open, head), tail)
    ensures Left(open, [head] + tail) == Left(Opened(open, head), tail)
  {
    assert ([head] + tail)[1..] == tail;
  }

  predicate HasEnd(replies: seq<Reply>)
    decreases replies
  {
    replies != [] && (replies[0].End? || HasEnd(replies[1..]))
  }

  lemma HasEndCons(head: Reply, tail: seq<Reply>)
    ensures HasEnd([head] + tail) <==> head.End? || HasEnd(tail)
    ensures !HasEnd([])
  {
    assert ([head] + tail)[1..] == tail;
  }

  /** What a transfer that fails was to settle: its path, on its End if that is on its way,
      or else at the end of what the server is streaming. */
  lemma {:induction false} BrokenSettles(open: map<nat, Open>, replies: seq<Reply>, streaming: map<nat, Open>, xid: nat)
    requires Flows(open, replies, streaming) && open.Keys == {xid}
    ensures Flows(map[], replies, streaming)
    ensures if HasEnd(replies) then
              Left(map[], replies) == Left(open, replies) &&
              ReplyPaths(open, replies) == ReplyPaths(map[], replies) + multiset{open[xid].path}
            else
              Left(open, replies) == open == streaming && Left(map[], replies) == map[] &&
              ReplyPaths(open, replies) == ReplyPaths(map[], replies)
    decreases |replies|
  {
    hide *;
    if replies == [] {
      NoReplies(open, streaming);
      NoReplies(map[], streaming);
      HasEndCons(NotFound([]), []);
      assert open != map[];
    } else {
      var head, tail := replies[0], replies[1..];
      assert replies == [head] + tail;
      HasEndCons(head, tail);
      FlowsCons(open, head, tail, streaming);
      FlowsCons(map[], head, tail, streaming);
      FirstAfterBreak(open, head, xid);
      if !head.End? {
        BrokenSettles(open, tail, streaming, xid);
      }
    }
  }

  lemma FirstAfterBreak(open: map<nat, Open>, m: Reply, xid: nat)
    requires Follows(open, m) && open.Keys == {xid}
    ensures !m.Start? && Follows(map[], m) && Opened(map[], m) == map[]
    ensures if m.End? then Opened(open, m) == map[] && Settles(open, m) == multiset{open[xid].path} && Settles(map[], m) == multiset{}
            else Opened(open, m) == open && Settles(map[], m) == Settles(open, m)
  {
    if m.End? {
      assert open - {xid} == map[];
    }
  }

  lemma QueueHead(q: seq<Path>)
    requires q != []
    ensures multiset(q) == multiset{q[0]} + multiset(q[1..])
  {
    assert q == [q[0]] + q[1..];
  }

  /** The reservations held are the paths queued and the paths in flight, once each. */
  ghost predicate Accounted(b: Book, inFlight: multiset<Path>) {
    multiset(b.queue) + inFlight == multiset(b.pulling)
  }

  lemma Counted(b: Book, inFlight: multiset<Path>)
    requires Accounted(b, inFlight)
    ensures |b.queue| + |inFlight| == |b.pulling|
    ensures forall p :: p in inFlight ==> p in b.pulling && inFlight[p] == 1 && p !in b.queue
    ensures forall i, j :: 0 <= i < j < |b.queue| ==> b.queue[i] != b.queue[j]
  {
    assert |multiset(b.queue) + inFlight| == |multiset(b.pulling)|;
    forall p | p in inFlight
      ensures p in b.pulling && inFlight[p] == 1 && p !in b.queue
    {
      assert (multiset(b.queue) + inFlight)[p] == multiset(b.pulling)[p];
    }
    forall i, j | 0 <= i < j < |b.queue|
      ensures b.queue[i] != b.queue[j]
    {
      assert (multiset(b.queue) + inFlight)[b.queue[i]] == multiset(b.pulling)[b.queue[i]];
      assert multiset(b.queue)[b.queue[i]] <= 1;
      if b.queue[i] == b.queue[j] {
        TwiceListed(b.queue, i, j);
      }
    }
  }

  lemma TwiceListed(q: seq<Path>, i: nat, j: nat)
    requires i < j < |q| && q[i] == q[j]
    ensures multiset(q)[q[i]] >= 2
  {
    assert q == q[..j] + q[j..];
    assert q[..j][i] == q[i] && q[j..][0] == q[j];
    assert q[i] in multiset(q[..j]) && q[i] in multiset(q[j..]);
  }

  lemma ReservedIsQueued(b: Book, p: Path, inFlight: multiset<Path>)
    requires Accounted(b, inFlight)
    ensures Accounted(Reserve(b, p), inFlight)
    ensures multiset(Reserve(b, p).pulling) == multiset(b.pulling) + (if p in b.pulling then multiset{} else multiset{p})
  {
    if p !in b.pulling {
      assert multiset(b.pulling + {p}) == multiset(b.pulling) + multiset{p};
      assert multiset(b.queue + [p]) == multiset(b.queue) + multiset{p};
    }
  }

  lemma PickedIsInFlight(b: Book, inFlight: multiset<Path>)
    requires Accounted(b, inFlight) && b.queue != []
    ensures Accounted(b.(queue := b.queue[1..]), inFlight + multiset{b.queue[0]})
  {
    QueueHead(b.queue);
  }

  /** A settled path was reserved, and is released just this once. */
  lemma SettledIsReleased(b: Book, inFlight: multiset<Path>, p: Path)
    requires Accounted(b, inFlight + multiset{p})
    ensures p in b.pulling
    ensures Accounted(b.(pulling := b.pulling - {p}), inFlight)
    ensures multiset(b.pulling) == multiset(b.pulling - {p}) + multiset{p}
  {
    var held := multiset(b.queue) + (inFlight + multiset{p});
    assert held[p] == multiset(b.pulling)[p];
    assert multiset(b.pulling - {p}) == multiset(b.pulling) - multiset{p};
  }

  lemma InFlightSplits(s: System)
    ensures InFlight(s) == Waiting(s) + Replying(s)
  {
  }

  lemma ReplyingIs(s: System)
    ensures Replying(s) == ActivePath(s.active, Left(s.incoming, s.replies)) + ReplyPaths(s.incoming, s.replies)
  {
  }

  /** Sending a reply: whether or not the transfer being streamed has failed, what stops being
      served and what comes in from waiting is what the reply will settle. */
  lemma ReplySent(s: System, t: System, m: Reply, extra: multiset<Path>)
    requires Flows(s.incoming, s.replies, Streaming(s.active))
    requires Follows(Streaming(s.active), m) && (m.End? ==> m.xid in Streaming(s.active))
    requires t.incoming == s.incoming && t.replies == s.replies + [m]
    requires Opened(Streaming(s.active), m) == Streaming(t.active)
    requires ActivePath(t.active, Opened(map[], m)) + Settles(map[], m) == ActivePath(s.active, map[]) + extra
    requires ActivePath(t.active, Opened(Streaming(s.active), m)) + Settles(Streaming(s.active), m) ==
             ActivePath(s.active, Streaming(s.active)) + extra
    ensures Replying(t) == Replying(s) + extra && Flows(t.incoming, t.replies, Streaming(t.active))
  {
    hide *;
    ReplySnoc(s.incoming, s.replies, Streaming(s.active), m);
    ReplyingIs(s);
    ReplyingIs(t);
    var left := Left(s.incoming, s.replies);
    assert ActivePath(t.active, Opened(left, m)) + Settles(left, m) == ActivePath(s.active, left) + extra;
    Regroup(ActivePath(t.active, Opened(left, m)), ReplyPaths(s.incoming, s.replies), Settles(left, m));
    Regroup(ActivePath(s.active, left), ReplyPaths(s.incoming, s.replies), extra);
  }

  lemma Regroup(a: multiset<Path>, b: multiset<Path>, c: multiset<Path>)
    ensures a + (b + c) == (a + c) + b && (a + b) + c == (a + c) + b
  {
  }

  /** The step leaves every path in flight where it can be accounted for. */
  ghost predicate KeepsInFlight(s: System, t: System) {
    InFlight(t) == InFlight(s) && Flows(t.incoming, t.replies, Streaming(t.active))
  }

  lemma Moved(s: System, t: System, extra: multiset<Path>)
    requires Waiting(s) == Waiting(t) + extra && Replying(t) == Replying(s) + extra
    requires Flows(t.incoming, t.replies, Streaming(t.active))
    ensures KeepsInFlight(s, t)
  {
    InFlightSplits(s);
    InFlightSplits(t);
    hide InFlight, Waiting, Replying, Flows;
  }

  lemma SameReplying(s: System, t: System)
    requires s.active == t.active && s.incoming == t.incoming && s.replies == t.replies
    ensures Replying(s) == Replying(t) && Replying(t) == Replying(s) + multiset{}
    ensures Flows(s.incoming, s.replies, Streaming(s.active)) == Flows(t.incoming, t.replies, Streaming(t.active))
  {
    hide ActivePath, Left, ReplyPaths, Flows, Streaming;
  }

  lemma AskedWaits(s: System, t: System)
    requires s.asking.Some? && t.asking.None? && s.serveQ == t.serveQ
    requires RequestPaths(t.requests) == RequestPaths(s.requests) + multiset{s.asking.value}
    ensures Waiting(s) == Waiting(t) + multiset{}
  {
    hide RequestPaths, JobPaths;
  }

  lemma QueuedWaits(s: System, t: System, p: Path)
    requires s.asking == t.asking && RequestPaths(s.requests) == multiset{p} + RequestPaths(t.requests)
    requires JobPaths(t.serveQ) == JobPaths(s.serveQ) + multiset{p}
    ensures Waiting(s) == Waiting(t) + multiset{}
  {
    hide RequestPaths, JobPaths, AskingPath;
  }

  lemma AskMoves(s: System, hasSig: bool, max: nat)
    requires Enabled(s, Ask(hasSig), max) && Flows(s.incoming, s.replies, Streaming(s.active))
    ensures KeepsInFlight(s, Next(s, Ask(hasSig), max))
  {
    var t := Next(s, Ask(hasSig), max);
    RequestSnoc(s.requests, Request(s.asking.value, hasSig));
    AskedWaits(s, t);
    SameReplying(s, t);
    hide *;
    Moved(s, t, multiset{});
  }

  lemma QueueMoves(s: System, max: nat)
    requires Enabled(s, Queue, max) && Flows(s.incoming, s.replies, Streaming(s.active))
    ensures KeepsInFlight(s, Next(s, Queue, max))
  {
    var t := Next(s, Queue, max);
    FirstRequest(s.requests);
    JobSnoc(s.serveQ, Job(s.requests[0].path, s.requests[0].hasSig, s.nextXid));
    QueuedWaits(s, t, s.requests[0].path);
    SameReplying(s, t);
    hide *;
    Moved(s, t, multiset{});
  }

  lemma TakeMoves(s: System, max: nat)
    requires Enabled(s, Take, max) && Flows(s.incoming, s.replies, Streaming(s.active))
    ensures KeepsInFlight(s, Next(s, Take, max))
  {
    var t, p := Next(s, Take, max), s.serveQ[0].path;
    FirstJob(s.serveQ);
    JobTaken(s, t, p);
    hide *;
    ReplyingIs(s);
    ReplyingIs(t);
    Moved(s, t, multiset{p});
  }

  lemma JobTaken(s: System, t: System, p: Path)
    requires s.asking == t.asking && s.requests == t.requests && JobPaths(s.serveQ) == multiset{p} + JobPaths(t.serveQ)
    requires s.active.Idle? && t.active.Taken? && t.active.job.path == p && s.incoming == t.incoming && s.replies == t.replies
    ensures Waiting(s) == Waiting(t) + multiset{p}
    ensures ActivePath(s.active, Left(s.incoming, s.replies)) == multiset{}
    ensures ActivePath(t.active, Left(t.incoming, t.replies)) == multiset{p}
    ensures Flows(s.incoming, s.replies, Streaming(s.active)) == Flows(t.incoming, t.replies, Streaming(t.active))
  {
    hide JobPaths, RequestPaths, AskingPath, Left, Flows;
  }

  lemma DeclineMoves(s: System, max: nat)
    requires Enabled(s, Decline, max) && Flows(s.incoming, s.replies, Streaming(s.active))
    ensures KeepsInFlight(s, Next(s, Decline, max))
  {
    var t, p := Next(s, Decline, max), s.requests[0].path;
    FirstRequest(s.requests);
    RequestRefused(s, t, p);
    NotFoundOpensNothing(map[], p);
    NotFoundOpensNothing(Streaming(s.active), p);
    hide *;
    ReplySent(s, t, NotFound(p), multiset{p});
    Moved(s, t, multiset{p});
  }

  lemma RequestRefused(s: System, t: System, p: Path)
    requires s.asking == t.asking && s.serveQ == t.serveQ && RequestPaths(s.requests) == multiset{p} + RequestPaths(t.requests)
    ensures Waiting(s) == Waiting(t) + multiset{p}
  {
    hide AskingPath, RequestPaths, JobPaths;
  }

  lemma NotFoundOpensNothing(open: map<nat, Open>, p: Path)
    ensures Follows(open, NotFound(p)) && Opened(open, NotFound(p)) == open && Settles(open, NotFound(p)) == multiset{p}
  {
  }

  lemma WaitingIs(s: System, t: System)
    requires s.asking == t.asking && s.requests == t.requests && s.serveQ == t.serveQ
    ensures Waiting(s) == Waiting(t)
  {
  }

  lemma GoneMoves(s: System, max: nat)
    requires Enabled(s, Gone, max) && Flows(s.incoming, s.replies, Streaming(s.active))
    ensures KeepsInFlight(s, Next(s, Gone, max))
  {
    var t := Next(s, Gone, max);
    WaitingIs(s, t);
    hide Waiting, Left, ReplyPaths, Replying, Flows, KeepsInFlight, InFlight;
    ReplySent(s, t, NotFound(s.active.job.path), multiset{});
    Moved(s, t, multiset{});
  }

  lemma BeginMoves(s: System, isDelta: bool, max: nat)
    requires Enabled(s, Begin(isDelta), max) && Flows(s.incoming, s.replies, Streaming(s.active))
    ensures KeepsInFlight(s, Next(s, Begin(isDelta), max))
  {
    var t := Next(s, Begin(isDelta), max);
    WaitingIs(s, t);
    hide Waiting, Left, ReplyPaths, Replying, Flows, KeepsInFlight, InFlight;
    ReplySent(s, t, Start(s.active.job.xid, s.active.job.path, isDelta), multiset{});
    Moved(s, t, multiset{});
  }

  lemma FinishMoves(s: System, max: nat)
    requires Enabled(s, Finish, max) && Flows(s.incoming, s.replies, Streaming(s.active))
    ensures KeepsInFlight(s, Next(s, Finish, max))
  {
    var t := Next(s, Finish, max);
    WaitingIs(s, t);
    hide Waiting, Left, ReplyPaths, Replying, Flows, KeepsInFlight, InFlight;
    ReplySent(s, t, End(s.active.xid), multiset{});
    Moved(s, t, multiset{});
  }

  /** How a step that leaves the book alone moves paths between places in flight. */
  lemma MovesKeepInFlight(s: System, step: Step, max: nat)
    requires Enabled(s, step, max) && Flows(s.incoming, s.replies, Streaming(s.active))
    requires !step.Plan? && !step.Pick? && !step.Hear? && !step.Break?
    ensures KeepsInFlight(s, Next(s, step, max))
  {
    hide KeepsInFlight, Next, Flows, Streaming;
    match step
    case Ask(hasSig) => AskMoves(s, hasSig, max);
    case Decline => DeclineMoves(s, max);
    case Queue => QueueMoves(s, max);
    case Take => TakeMoves(s, max);
    case Gone => GoneMoves(s, max);
    case Begin(isDelta) => BeginMoves(s, isDelta, max);
    case Finish => FinishMoves(s, max);
  }

  lemma FirstRequest(rs: seq<Request>)
    requires rs != []
    ensures RequestPaths(rs) == multiset{rs[0].path} + RequestPaths(rs[1..])
  {
  }

  lemma FirstJob(js: seq<Job>)
    requires js != []
    ensures JobPaths(js) == multiset{js[0].path} + JobPaths(js[1..])
  {
  }

  /** With the oldest reply taken off, what it settles is no longer in flight. */
  lemma FirstReply(s: System)
    requires s.replies != [] && Flows(s.incoming, s.replies, Streaming(s.active))
    ensures var after := s.(replies := s.replies[1..], incoming := Opened(s.incoming, s.replies[0]));
            && InFlight(s) == InFlight(after) + Settles(s.incoming, s.replies[0])
            && Flows(after.incoming, after.replies, Streaming(after.active))
  {
    var after := s.(replies := s.replies[1..], incoming := Opened(s.incoming, s.replies[0]));
    assert s.replies == [s.replies[0]] + after.replies;
    FlowsCons(s.incoming, s.replies[0], after.replies, Streaming(s.active));
    WaitingIs(s, after);
    hide *;
    InFlightSplits(s);
    InFlightSplits(after);
    ReplyingIs(s);
    ReplyingIs(after);
  }

  lemma AskedAgain(s: System, p: Path)
    ensures InFlight(s.(requests := s.requests + [Request(p, false)])) == InFlight(s) + multiset{p}
  {
    var t := s.(requests := s.requests + [Request(p, false)]);
    InFlightSplits(s);
    InFlightSplits(t);
    RequestSnoc(s.requests, Request(p, false));
    hide InFlight, ReplyPaths, RequestPaths, JobPaths, ActivePath, Left;
  }

  lemma BookDoesNotMatter(s: System, t: System)
    requires s.asking == t.asking && s.requests == t.requests && s.serveQ == t.serveQ && s.active == t.active
    requires s.incoming == t.incoming && s.replies == t.replies
    ensures InFlight(s) == InFlight(t)
  {
  }

  /** Hearing a reply that settles p and lets go of it. */
  lemma ReleaseKeeps(s: System, after: System, t: System, p: Path, max: nat)
    requires Invariant(s, max) && InFlight(s) == InFlight(after) + multiset{p}
    requires Flows(after.incoming, after.replies, Streaming(after.active)) && after.book == s.book
    requires t == Release(after, p) && after.granted == s.granted && after.released == s.released
    ensures Invariant(t, max)
  {
    BookDoesNotMatter(t, after);
    hide InFlight, Flows, Streaming;
    SettledIsReleased(s.book, InFlight(after), p);
  }

  /** Hearing that a delta failed: its path goes back to being requested. */
  lemma RetryKeeps(s: System, after: System, p: Path, max: nat)
    requires Invariant(s, max) && InFlight(s) == InFlight(after) + multiset{p}
    requires Flows(after.incoming, after.replies, Streaming(after.active)) && after.book == s.book
    requires after.granted == s.granted && after.released == s.released
    ensures Invariant(after.(requests := after.requests + [Request(p, false)]), max)
  {
    AskedAgain(after, p);
    hide InFlight, Flows, Streaming;
  }

  lemma HearKeepsInvariant(s: System, verified: bool, max: nat)
    requires Enabled(s, Hear(verified), max) && Invariant(s, max)
    ensures Invariant(Next(s, Hear(verified), max), max)
  {
    hide Invariant, Next;
    var m := s.replies[0];
    match m
    case NotFound(p) => HearNotFound(s, verified, p, max);
    case Start(_, _, _) => HearStart(s, verified, max);
    case End(xid) => HearEnd(s, verified, max);
  }

  lemma HearNotFound(s: System, verified: bool, p: Path, max: nat)
    requires Enabled(s, Hear(verified), max) && Invariant(s, max) && s.replies[0] == NotFound(p)
    ensures Invariant(Next(s, Hear(verified), max), max)
  {
    hide InFlight, Flows, Streaming, Left, ReplyPaths;
    FirstReply(s);
    ReleaseKeeps(s, s.(replies := s.replies[1..]), Next(s, Hear(verified), max), p, max);
  }

  lemma HearStart(s: System, verified: bool, max: nat)
    requires Enabled(s, Hear(verified), max) && Invariant(s, max) && s.replies[0].Start?
    ensures Invariant(Next(s, Hear(verified), max), max)
  {
    hide InFlight, Flows, Streaming, Left, ReplyPaths;
    FirstReply(s);
    var after := s.(replies := s.replies[1..], incoming := Opened(s.incoming, s.replies[0]));
    assert Next(s, Hear(verified), max) == after;
    assert InFlight(after) == InFlight(s);
  }

  lemma HearEnd(s: System, verified: bool, max: nat)
    requires Enabled(s, Hear(verified), max) && Invariant(s, max) && s.replies[0].End?
    ensures Invariant(Next(s, Hear(verified), max), max)
  {
    hide InFlight, Flows, Streaming, Left, ReplyPaths;
    FirstReply(s);
    var xid := s.replies[0].xid;
    var after := s.(replies := s.replies[1..], incoming := s.incoming - {xid});
    if xid !in s.incoming {
      assert s.incoming - {xid} == s.incoming;
      assert Next(s, Hear(verified), max) == after;
    } else {
      var p := s.incoming[xid].path;
      if !verified && s.incoming[xid].isDelta {
        RetryKeeps(s, after, p, max);
      } else {
        ReleaseKeeps(s, after, Next(s, Hear(verified), max), p, max);
      }
    }
  }

  lemma {:induction false} OneOpen(open: map<nat, Open>, replies: seq<Reply>, streaming: map<nat, Open>, xid: nat)
    requires Flows(open, replies, streaming) && xid in open
    requires forall x :: x in streaming ==> streaming.Keys == {x}
    ensures open.Keys == {xid}
    decreases |replies|
  {
    if replies != [] && replies[0].NotFound? {
      OneOpen(open, replies[1..], streaming, xid);
    }
  }

  lemma InvariantFlows(s: System, max: nat)
    requires Invariant(s, max)
    ensures Flows(s.incoming, s.replies, Streaming(s.active))
  {
    hide InFlight, Flows, Streaming;
  }

  lemma BreakIs(s: System, xid: nat, max: nat) returns (after: System, p: Path)
    requires Enabled(s, Break(xid), max)
    ensures xid in s.incoming && after == s.(incoming := s.incoming - {xid}) && p == s.incoming[xid].path
    ensures Next(s, Break(xid), max) == Release(after, p)
  {
    after, p := s.(incoming := s.incoming - {xid}), s.incoming[xid].path;
  }

  lemma StreamsOne(a: Active)
    ensures forall x :: x in Streaming(a) ==> Streaming(a).Keys == {x}
  {
  }

  /** A transfer failing midway: its path is no longer in flight, wherever it was counted. */
  lemma BreakKeepsInvariant(s: System, xid: nat, max: nat)
    requires Enabled(s, Break(xid), max) && Invariant(s, max)
    ensures Invariant(Next(s, Break(xid), max), max)
  {
    hide *;
    var after, p := BreakIs(s, xid, max);
    var t := Next(s, Break(xid), max);
    InvariantFlows(s, max);
    StreamsOne(s.active);
    OneOpen(s.incoming, s.replies, Streaming(s.active), xid);
    BrokenInFlight(s, xid);
    ReleaseKeeps(s, after, t, p, max);
  }

  lemma BrokenInFlight(s: System, xid: nat)
    requires Flows(s.incoming, s.replies, Streaming(s.active)) && s.incoming.Keys == {xid}
    ensures var after := s.(incoming := s.incoming - {xid});
            && InFlight(s) == InFlight(after) + multiset{s.incoming[xid].path}
            && Flows(after.incoming, after.replies, Streaming(after.active))
  {
    hide *;
    var after := s.(incoming := s.incoming - {xid});
    assert after.incoming == map[];
    BrokenSettles(s.incoming, s.replies, Streaming(s.active), xid);
    if !HasEnd(s.replies) {
      ServedBreaks(s, xid);
    }
    WaitingIs(s, after);
    InFlightSplits(s);
    InFlightSplits(after);
    ReplyingIs(s);
    ReplyingIs(after);
  }

  lemma ServedBreaks(s: System, xid: nat)
    requires xid in s.incoming && s.incoming == Streaming(s.active)
    ensures ActivePath(s.active, s.incoming) == multiset{s.incoming[xid].path} && ActivePath(s.active, map[]) == multiset{}
  {
  }

  lemma PickKeepsInvariant(s: System, max: nat)
    requires Enabled(s, Pick, max) && Invariant(s, max)
    ensures Invariant(Next(s, Pick, max), max)
  {
    var t, p := Next(s, Pick, max), s.book.queue[0];
    Counted(s.book, InFlight(s));
    PickedIsInFlight(s.book, InFlight(s));
    InFlightSplits(s);
    InFlightSplits(t);
    hide InFlight, ReplyPaths, RequestPaths, JobPaths, Flows, Left, ActivePath;
    assert InFlight(t) == InFlight(s) + multiset{p};
  }

  lemma StepKeepsInvariant(s: System, step: Step, max: nat)
    requires Enabled(s, step, max) && Invariant(s, max)
    ensures Invariant(Next(s, step, max), max)
  {
    hide Invariant, Next;
    match step
    case Plan(p) => PlanKeepsInvariant(s, p, max);
    case Pick => PickKeepsInvariant(s, max);
    case Hear(verified) => HearKeepsInvariant(s, verified, max);
    case Break(xid) => BreakKeepsInvariant(s, xid, max);
    case _ => MovingKeepsInvariant(s, step, max);
  }

  lemma PlanKeepsInvariant(s: System, p: Path, max: nat)
    requires Enabled(s, Plan(p), max) && Invariant(s, max)
    ensures Invariant(Next(s, Plan(p), max), max)
  {
    hide InFlight, Flows, Reserve;
    ReservedIsQueued(s.book, p, InFlight(s));
    BookDoesNotMatter(s, Next(s, Plan(p), max));
  }

  lemma MovingKeepsInvariant(s: System, step: Step, max: nat)
    requires Enabled(s, step, max) && Invariant(s, max)
    requires !step.Plan? && !step.Pick? && !step.Hear? && !step.Break?
    ensures Invariant(Next(s, step, max), max)
  {
    hide InFlight, Flows, Streaming;
    MovesKeepInFlight(s, step, max);
  }

  lemma {:induction false} RunsKeepInvariant(s: System, steps: seq<Step>, max: nat)
    requires Initial(s) && RunTo(s, steps, max).Some?
    ensures Invariant(RunTo(s, steps, max).value, max)
  {
    if steps != [] {
      RunsKeepInvariant(s, steps[..|steps| - 1], max);
      StepKeepsInvariant(RunTo(s, steps[..|steps| - 1], max).value, steps[|steps| - 1], max);
    }
  }

  /** Over every run: the queue lists distinct reserved paths, every other reserved path
      is in flight in exactly one place, at most max of them, and each reservation ever
      granted is either still held or was released exactly once. */
  lemma ReservationsAreConserved(s: System, steps: seq<Step>, max: nat)
    requires Initial(s) && RunTo(s, steps, max).Some?
    ensures var t := RunTo(s, steps, max).value;
            && (forall i, j :: 0 <= i < j < |t.book.queue| ==> t.book.queue[i] != t.book.queue[j])
            && multiset(t.book.queue) + InFlight(t) == multiset(t.book.pulling)
            && |t.book.pulling| - |t.book.queue| == |InFlight(t)| <= max
            && t.granted == t.released + multiset(t.book.pulling)
  {
    RunsKeepInvariant(s, steps, max);
    Counted(RunTo(s, steps, max).value.book, InFlight(RunTo(s, steps, max).value));
  }

  /** Nor is the window kept smaller than it is: in every state a run reaches, with fewer than
      max paths in flight and one queued, the requester, when it is free, may take it. */
  lemma RoomIsUsed(s: System, steps: seq<Step>, max: nat)
    requires Initial(s) && RunTo(s, steps, max).Some?
    requires var t := RunTo(s, steps, max).value; t.asking.None? && t.book.queue != [] && |InFlight(t)| < max
    ensures Enabled(RunTo(s, steps, max).value, Pick, max)
  {
    hide InFlight, RunTo, Flows;
    ReservationsAreConserved(s, steps, max);
  }

  // ----- No slot is stranded ----------------------------------------------------

  function RequestWork(rs: seq<Request>): nat {
    if rs == [] then 0 else (if rs[0].hasSig then 13 else 7) + RequestWork(rs[1..])
  }

  function JobWork(js: seq<Job>): nat {
    if js == [] then 0 else (if js[0].hasSig then 12 else 6) + JobWork(js[1..])
  }

  function ActiveWork(a: Active): nat {
    match a
    case Idle => 0
    case Taken(j) => if j.hasSig then 11 else 5
    case Started(_, _, _) => 2
  }

  function OneReplyWork(m: Reply): nat {
    if m.Start? then (if m.isDelta then 8 else 2) else 1
  }

  function ReplyWork(replies: seq<Reply>): nat {
    if replies == [] then 0 else OneReplyWork(replies[0]) + ReplyWork(replies[1..])
  }

  function Deltas(open: map<nat, Open>): set<nat> {
    set xid | xid in open && open[xid].isDelta
  }

  /** An open delta may yet have to be asked for again whole. */
  function OpenWork(open: map<nat, Open>): nat {
    |open.Keys| + 6 * |Deltas(open)|
  }

  /** How much is left to do for the reservations held, a retry included. */
  function Work(s: System): nat {
    15 * |s.book.queue| + (if s.asking.Some? then 14 else 0)
    + RequestWork(s.requests) + JobWork(s.serveQ) + ActiveWork(s.active) + ReplyWork(s.replies) + OpenWork(s.incoming)
  }

  lemma ClosedWork(open: map<nat, Open>, xid: nat)
    requires xid in open
    ensures OpenWork(open - {xid}) + (if open[xid].isDelta then 7 else 1) == OpenWork(open)
  {
    assert (open - {xid}).Keys == open.Keys - {xid};
    assert Deltas(open - {xid}) == Deltas(open) - {xid};
    Fewer(open.Keys, xid);
    if open[xid].isDelta {
      Fewer(Deltas(open), xid);
    } else {
      assert Deltas(open) - {xid} == Deltas(open);
    }
  }

  lemma Fewer(xids: set<nat>, xid: nat)
    requires xid in xids
    ensures |xids| == |xids - {xid}| + 1
  {
    assert xids == (xids - {xid}) + {xid};
  }

  lemma OpenedWork(xid: nat, t: Open)
    ensures OpenWork(map[xid := t]) == OpenWork(map[]) + (if t.isDelta then 7 else 1)
  {
    var open := map[xid := t];
    ClosedWork(open, xid);
    assert open - {xid} == map[];
  }

  lemma {:induction false} RequestWorkSnoc(rs: seq<Request>, r: Request)
    ensures RequestWork(rs + [r]) == RequestWork(rs) + (if r.hasSig then 13 else 7)
  {
    if rs == [] {
      assert [] + [r] == [r] && [r][1..] == [];
    } else {
      RequestWorkSnoc(rs[1..], r);
      assert (rs + [r])[1..] == rs[1..] + [r];
    }
  }

  lemma {:induction false} JobWorkSnoc(js: seq<Job>, j: Job)
    ensures JobWork(js + [j]) == JobWork(js) + (if j.hasSig then 12 else 6)
  {
    if js == [] {
      assert [] + [j] == [j] && [j][1..] == [];
    } else {
      JobWorkSnoc(js[1..], j);
      assert (js + [j])[1..] == js[1..] + [j];
    }
  }

  lemma {:induction false} ReplyWorkSnoc(replies: seq<Reply>, m: Reply)
    ensures ReplyWork(replies + [m]) == ReplyWork(replies) + OneReplyWork(m)
  {
    if replies == [] {
      assert [] + [m] == [m] && [m][1..] == [];
    } else {
      ReplyWorkSnoc(replies[1..], m);
      assert (replies + [m])[1..] == replies[1..] + [m];
    }
  }

  /** Every step but a new plan brings the end nearer, even a transfer that breaks, and even a
      failed verification: the retry carries no signature, so it cannot fail that way again. */
  lemma EveryStepIsProgress(s: System, step: Step, max: nat)
    requires Enabled(s, step, max) && Invariant(s, max) && !step.Plan?
    ensures Work(Next(s, step, max)) < Work(s)
  {
    assert Flows(s.incoming, s.replies, Streaming(s.active));
    hide Invariant, Flows, Next, Work;
    match step
    case Hear(verified) => HearingIsProgress(s, verified, max);
    case Break(xid) => BreakingIsProgress(s, xid, max);
    case _ => MovingIsProgress(s, step, max);
  }

  lemma BreakingIsProgress(s: System, xid: nat, max: nat)
    requires Enabled(s, Break(xid), max)
    ensures Work(Next(s, Break(xid), max)) < Work(s)
  {
    ClosedWork(s.incoming, xid);
    hide OpenWork, ReplyWork, RequestWork, JobWork;
  }

  lemma FirstWork(s: System)
    ensures s.requests != [] ==>
              RequestWork(s.requests) == (if s.requests[0].hasSig then 13 else 7) + RequestWork(s.requests[1..])
    ensures s.serveQ != [] ==> JobWork(s.serveQ) == (if s.serveQ[0].hasSig then 12 else 6) + JobWork(s.serveQ[1..])
    ensures s.replies != [] ==> ReplyWork(s.replies) == OneReplyWork(s.replies[0]) + ReplyWork(s.replies[1..])
  {
  }

  lemma MovingIsProgress(s: System, step: Step, max: nat)
    requires Enabled(s, step, max) && !step.Plan? && !step.Hear? && !step.Break?
    ensures Work(Next(s, step, max)) < Work(s)
  {
    FirstWork(s);
    hide RequestWork, JobWork, ReplyWork, OpenWork;
    match step
    case Pick =>
    case Ask(hasSig) => RequestWorkSnoc(s.requests, Request(s.asking.value, hasSig));
    case Decline => ReplyWorkSnoc(s.replies, NotFound(s.requests[0].path));
    case Queue => JobWorkSnoc(s.serveQ, Job(s.requests[0].path, s.requests[0].hasSig, s.nextXid));
    case Take =>
    case Gone => ReplyWorkSnoc(s.replies, NotFound(s.active.job.path));
    case Begin(isDelta) => ReplyWorkSnoc(s.replies, Start(s.active.job.xid, s.active.job.path, isDelta));
    case Finish => ReplyWorkSnoc(s.replies, End(s.active.xid));
  }

  lemma HearingIsProgress(s: System, verified: bool, max: nat)
    requires Flows(s.incoming, s.replies, Streaming(s.active)) && s.replies != []
    ensures Work(Next(s, Hear(verified), max)) < Work(s)
  {
    FirstWork(s);
    assert Follows(s.incoming, s.replies[0]);
    hide RequestWork, JobWork, ReplyWork, Flows, ActiveWork, OpenWork, Streaming;
    match s.replies[0]
    case NotFound(_) =>
    case Start(_, _, _) => StartIsProgress(s, verified, max);
    case End(_) => EndIsProgress(s, verified, max);
  }

  lemma StartIsProgress(s: System, verified: bool, max: nat)
    requires s.replies != [] && s.replies[0].Start? && s.incoming == map[]
    ensures Work(Next(s, Hear(verified), max)) < Work(s)
  {
    FirstWork(s);
    hide RequestWork, JobWork, ReplyWork, ActiveWork, OpenWork;
    var m := s.replies[0];
    OpenedWork(m.xid, Open(m.path, m.isDelta));
    assert s.incoming[m.xid := Open(m.path, m.isDelta)] == map[m.xid := Open(m.path, m.isDelta)];
  }

  lemma EndIsProgress(s: System, verified: bool, max: nat)
    requires s.replies != [] && s.replies[0].End?
    ensures Work(Next(s, Hear(verified), max)) < Work(s)
  {
    FirstWork(s);
    hide RequestWork, JobWork, ReplyWork, ActiveWork, OpenWork;
    var xid := s.replies[0].xid;
    if xid in s.incoming {
      ClosedWork(s.incoming, xid);
      RequestWorkSnoc(s.requests, Request(s.incoming[xid].path, false));
    }
  }

  /** When nothing but a new plan is possible, every reservation has been released: no
      path is left holding a slot. */
  lemma NothingIsStranded(s: System, steps: seq<Step>, max: nat)
    requires Initial(s) && RunTo(s, steps, max).Some? && 0 < max
    requires forall step :: Enabled(RunTo(s, steps, max).value, step, max) ==> step.Plan?
    ensures var t := RunTo(s, steps, max).value;
            t.book.pulling == {} && t.book.queue == [] && t.released == t.granted
  {
    var t := RunTo(s, steps, max).value;
    RunsKeepInvariant(s, steps, max);
    QuietHoldsNothing(t, max);
  }

  lemma QuietHoldsNothing(t: System, max: nat)
    requires Invariant(t, max) && 0 < max
    requires forall step :: Enabled(t, step, max) ==> step.Plan?
    ensures t.book.pulling == {} && t.book.queue == [] && t.released == t.granted
  {
    OnlyPlansAreLeft(t, max);
    NothingInFlight(t);
    Counted(t.book, InFlight(t));
    EmptyBook(t.book, InFlight(t), max);
    hide InFlight, Flows;
  }

  lemma OnlyPlansAreLeft(t: System, max: nat)
    requires forall step :: Enabled(t, step, max) ==> step.Plan?
    ensures t.asking.None? && t.requests == [] && t.serveQ == [] && t.active.Idle? && t.replies == []
    ensures !MayRequest(t.book, max)
  {
    assert !Enabled(t, Ask(false), max) && !Enabled(t, Queue, max) && !Enabled(t, Take, max) && !Enabled(t, Gone, max);
    assert !Enabled(t, Finish, max) && !Enabled(t, Hear(true), max) && !Enabled(t, Pick, max);
  }

  /** With nothing in flight a queued path may be requested, so there is none. */
  lemma EmptyBook(b: Book, inFlight: multiset<Path>, max: nat)
    requires Accounted(b, inFlight) && inFlight == multiset{} && !MayRequest(b, max) && 0 < max
    requires |b.queue| + |inFlight| == |b.pulling|
    ensures b == Book({}, [])
  {
  }

  lemma NothingInFlight(s: System)
    requires s.asking.None? && s.requests == [] && s.serveQ == [] && s.active.Idle? && s.replies == []
    ensures InFlight(s) == multiset{}
  {
  }
}
