/** Two peers running the merge independently, under any interleaving of their requests,
    landings and deletions and however stale each one's view of the other is. A view holds
    only the safe paths of a tree; a file is read when it is asked for and lands later. */
module Convergence {
  import opened Types
  import opened Merge

  /** Both trees, what each peer believes of the other, every tree each has had, and the
      files on their way. */
  datatype Peers = Peers(a: Tree, b: Tree, aSeenByB: Tree, bSeenByA: Tree, pastA: seq<Tree>, pastB: seq<Tree>,
                         toA: map<Path, FileMeta>, toB: map<Path, FileMeta>)

  /** One peer acts on its plan at one path, a file lands, or one hears of some tree the
      other has had. */
  datatype Move =
    | DropA(p: Path) | AskA(p: Path) | LandA(p: Path) | HearOfA(k: nat)
    | DropB(p: Path) | AskB(p: Path) | LandB(p: Path) | HearOfB(k: nat)

  datatype Setup = Setup(base: Tree, a0: Tree, b0: Tree, oA: Options, oB: Options, safe: Path -> bool)

  function Start(s: Setup): Peers {
    Peers(s.a0, s.b0, Safe(s.a0, s.safe), Safe(s.b0, s.safe), [s.a0], [s.b0], map[], map[])
  }

  /** The plan computed from this view has an action of this kind at p. */
  predicate Planned(p: Path, base: Tree, local: Tree, view: Tree, o: Options, k: Kind) {
    p in PlannedKeys(base, local, view, o) && DecidePath(p, base, local, view, o).kind == k
  }

  predicate Legal(s: Setup, x: Peers, m: Move) {
    match m
    case DropA(p) => Planned(p, s.base, x.a, x.bSeenByA, s.oA, DeleteLocal)
    case AskA(p) => Planned(p, s.base, x.a, x.bSeenByA, s.oA, Pull) && p in x.b && p !in x.toA
    case LandA(p) => p in x.toA
    case HearOfA(k) => k < |x.pastA|
    case DropB(p) => Planned(p, s.base, x.b, x.aSeenByB, s.oB, DeleteLocal)
    case AskB(p) => Planned(p, s.base, x.b, x.aSeenByB, s.oB, Pull) && p in x.a && p !in x.toB
    case LandB(p) => p in x.toB
    case HearOfB(k) => k < |x.pastB|
  }

  function Next(s: Setup, x: Peers, m: Move): Peers
    requires Legal(s, x, m)
  {
    match m
    case DropA(p) => NowA(x, x.a - {p})
    case AskA(p) => x.(toA := x.toA[p := x.b[p]])
    case LandA(p) => NowA(x, x.a[p := x.toA[p]]).(toA := x.toA - {p})
    case HearOfA(k) => x.(aSeenByB := Safe(x.pastA[k], s.safe))
    case DropB(p) => NowB(x, x.b - {p})
    case AskB(p) => x.(toB := x.toB[p := x.a[p]])
    case LandB(p) => NowB(x, x.b[p := x.toB[p]]).(toB := x.toB - {p})
    case HearOfB(k) => x.(bSeenByA := Safe(x.pastB[k], s.safe))
  }

  function NowA(x: Peers, t: Tree): Peers {
    x.(a := t, pastA := x.pastA + [t])
  }

  function NowB(x: Peers, t: Tree): Peers {
    x.(b := t, pastB := x.pastB + [t])
  }

  /** The state a sequence of moves leads to; None when some move was not legal. */
  function RunTo(s: Setup, moves: seq<Move>): Option<Peers> {
    if moves == [] then Some(Start(s)) else
      var x := RunTo(s, moves[..|moves| - 1]);
      var m := moves[|moves| - 1];
      if x.Some? && Legal(s, x.value, m) then Some(Next(s, x.value, m)) else None
  }

  predicate Changes(m: Move) {
    m.DropA? || m.LandA? || m.DropB? || m.LandB?
  }

  /** How many files have landed or been deleted. */
  function Actions(moves: seq<Move>): nat {
    if moves == [] then 0 else Actions(moves[..|moves| - 1]) + (if Changes(moves[|moves| - 1]) then 1 else 0)
  }

  // ----- One path ---------------------------------------------------------------

  /** The plan pulls or deletes here; where neither side has anything it never does. */
  predicate Moves(l: Entry, v: Entry, b: Entry, o: Options) {
    (l.Some? || v.Some?) && Acts(l, v, b, o)
  }

  lemma PlannedMoves(p: Path, base: Tree, local: Tree, view: Tree, o: Options)
    ensures Moves(Find(local, p), Find(view, p), Find(base, p), o) <==>
            Planned(p, base, local, view, o, Pull) || Planned(p, base, local, view, o, DeleteLocal)
    ensures Planned(p, base, local, view, o, Pull) ==> p in view && Decide(Find(local, p), Find(view, p), Find(base, p), o).kind == Pull
    ensures Planned(p, base, local, view, o, DeleteLocal) ==>
              p !in view && p in local && Decide(Find(local, p), Find(view, p), Find(base, p), o).kind == DeleteLocal
  {
  }

  /** Where content agrees nothing moves; where it does not, one side moves and takes the
      other's. */
  lemma OneMoves(l: Entry, r: Entry, b: Entry, o1: Options, o2: Options)
    requires Paired(o1, o2) && (!Agree(l, r) ==> Resolvable(l, r, b, o1, o2))
    ensures Agree(l, r) ==> !Moves(l, r, b, o1) && !Moves(r, l, b, o2)
    ensures !Agree(l, r) ==> Moves(l, r, b, o1) != Moves(r, l, b, o2)
  {
    if !Agree(l, r) {
      ExactlyOneActs(l, r, b, o1, o2);
      hide Resolvable;
    }
  }

  lemma AgreesWithItself(l: Entry, b: Entry, o: Options)
    ensures Agree(l, l) && !Moves(l, l, b, o)
  {
  }

  /** What is here to be seen by the peer, and what it can ever see of an unsafe path. */
  function Visible(s: Setup, t: Tree, p: Path): Entry {
    if s.safe(p) then Find(t, p) else None
  }

  lemma SafeShows(s: Setup, t: Tree, p: Path)
    ensures Find(Safe(t, s.safe), p) == Visible(s, t, p)
  {
  }

  predicate AMoves(s: Setup, p: Path) {
    Moves(Find(s.a0, p), Visible(s, s.b0, p), Find(s.base, p), s.oA)
  }

  predicate BMoves(s: Setup, p: Path) {
    Moves(Find(s.b0, p), Visible(s, s.a0, p), Find(s.base, p), s.oB)
  }

  /** What each peer ends with, decided by the initial trees alone. */
  function FinalA(s: Setup, p: Path): Entry {
    if AMoves(s, p) then Visible(s, s.b0, p) else Find(s.a0, p)
  }

  function FinalB(s: Setup, p: Path): Entry {
    if BMoves(s, p) then Visible(s, s.a0, p) else Find(s.b0, p)
  }

  /** Nothing keeps the two plans from complementing each other at p. */
  predicate Compatible(s: Setup, p: Path) {
    s.safe(p) && !Agree(Find(s.a0, p), Find(s.b0, p)) ==>
      Resolvable(Find(s.a0, p), Find(s.b0, p), Find(s.base, p), s.oA, s.oB)
  }

  /** On a path both can see one peer at most moves, and then they agree; on any other each
      decides for itself and can only delete. */
  lemma WhoMoves(s: Setup, p: Path)
    requires Paired(s.oA, s.oB) && Compatible(s, p)
    ensures s.safe(p) ==> !(AMoves(s, p) && BMoves(s, p)) && Agree(FinalA(s, p), FinalB(s, p))
    ensures s.safe(p) ==> (AMoves(s, p) || BMoves(s, p) <==> !Agree(Find(s.a0, p), Find(s.b0, p)))
    ensures AMoves(s, p) ==> Find(s.a0, p) != FinalA(s, p)
  {
    var l, r, b := Find(s.a0, p), Find(s.b0, p), Find(s.base, p);
    if s.safe(p) {
      OneMoves(l, r, b, s.oA, s.oB);
      AgreesWithItself(l, b, s.oA);
      AgreesWithItself(r, b, s.oA);
    } else {
      AgreesWithItself(l, b, s.oA);
    }
    hide Moves, Agree, Resolvable;
  }

  // ----- The invariant ----------------------------------------------------------

  /** Where p can be in one peer's tree: as it was, or, if that peer moves, as it ends. */
  predicate OnTheWay(e: Entry, initial: Entry, final: Entry) {
    e == initial || e == final
  }

  /** A tree A has had, everything on the way; and a view B has of A. */
  ghost predicate PastOfA(s: Setup, t: Tree) {
    forall p :: OnTheWay(Find(t, p), Find(s.a0, p), FinalA(s, p))
  }

  ghost predicate PastOfB(s: Setup, t: Tree) {
    forall p :: OnTheWay(Find(t, p), Find(s.b0, p), FinalB(s, p))
  }

  ghost predicate ViewOf(v: Tree, past: seq<Tree>, safe: Path -> bool) {
    exists k :: 0 <= k < |past| && v == Safe(past[k], safe)
  }

  /** Every past and every view is on the way; what is in flight to a peer is what it ends
      with, at a path it has not changed yet. */
  ghost predicate Invariant(s: Setup, x: Peers) {
    && |x.pastA| > 0 && x.a == x.pastA[|x.pastA| - 1] && ViewOf(x.aSeenByB, x.pastA, s.safe)
    && |x.pastB| > 0 && x.b == x.pastB[|x.pastB| - 1] && ViewOf(x.bSeenByA, x.pastB, s.safe)
    && (forall k :: 0 <= k < |x.pastA| ==> PastOfA(s, x.pastA[k]))
    && (forall k :: 0 <= k < |x.pastB| ==> PastOfB(s, x.pastB[k]))
    && (forall p :: p in x.toA ==> s.safe(p) && AMoves(s, p) && Some(x.toA[p]) == Find(s.b0, p) && Find(x.a, p) == Find(s.a0, p))
    && (forall p :: p in x.toB ==> s.safe(p) && BMoves(s, p) && Some(x.toB[p]) == Find(s.a0, p) && Find(x.b, p) == Find(s.b0, p))
  }

  ghost predicate AllCompatible(s: Setup) {
    Paired(s.oA, s.oB) && forall p :: Compatible(s, p)
  }

  /** What a view shows of p is what the peer had there at some time, or nothing. */
  lemma ViewShows(s: Setup, v: Tree, past: seq<Tree>, p: Path, initial: Entry, final: Entry)
    requires ViewOf(v, past, s.safe)
    requires forall k :: 0 <= k < |past| ==> OnTheWay(Find(past[k], p), initial, final)
    ensures if s.safe(p) then OnTheWay(Find(v, p), initial, final) else Find(v, p) == None
  {
    var k :| 0 <= k < |past| && v == Safe(past[k], s.safe);
    SafeShows(s, past[k], p);
  }

  /** A planned move, on however stale a view, is the move the initial plan made at that
      path, made for the first time. */
  lemma MoveIsInitial(s: Setup, p: Path, e: Entry, v: Entry, r: Entry)
    requires Paired(s.oA, s.oB) && Compatible(s, p)
    requires OnTheWay(e, Find(s.a0, p), FinalA(s, p)) && OnTheWay(r, Find(s.b0, p), FinalB(s, p))
    requires if s.safe(p) then OnTheWay(v, Find(s.b0, p), FinalB(s, p)) else v == None
    requires Moves(e, v, Find(s.base, p), s.oA)
    ensures AMoves(s, p) && e == Find(s.a0, p) && v == Visible(s, s.b0, p) && (s.safe(p) ==> r == Find(s.b0, p))
  {
    WhoMoves(s, p);
    AgreesWithItself(e, Find(s.base, p), s.oA);
    hide Moves, Agree, Compatible;
  }

  lemma PlannedByA(s: Setup, x: Peers, p: Path, k: Kind)
    requires AllCompatible(s) && Invariant(s, x) && Planned(p, s.base, x.a, x.bSeenByA, s.oA, k) && (k == Pull || k == DeleteLocal)
    ensures AMoves(s, p) && Find(x.a, p) == Find(s.a0, p) && Find(x.bSeenByA, p) == Visible(s, s.b0, p)
    ensures s.safe(p) ==> Find(x.b, p) == Find(s.b0, p)
    ensures k == Pull ==> s.safe(p)
    ensures k == DeleteLocal ==> Visible(s, s.b0, p) == None
  {
    PlannedMoves(p, s.base, x.a, x.bSeenByA, s.oA);
    assert PastOfA(s, x.a) && PastOfB(s, x.b);
    forall k | 0 <= k < |x.pastB|
      ensures OnTheWay(Find(x.pastB[k], p), Find(s.b0, p), FinalB(s, p))
    {
      assert PastOfB(s, x.pastB[k]);
    }
    ViewShows(s, x.bSeenByA, x.pastB, p, Find(s.b0, p), FinalB(s, p));
    MoveIsInitial(s, p, Find(x.a, p), Find(x.bSeenByA, p), Find(x.b, p));
    hide Planned, Moves, AMoves, BMoves, FinalA, FinalB, Compatible, Invariant, PastOfA, PastOfB, ViewOf;
  }

  // ----- The same, seen from the other peer -------------------------------------

  function Swap(s: Setup): Setup {
    Setup(s.base, s.b0, s.a0, s.oB, s.oA, s.safe)
  }

  function SwapPeers(x: Peers): Peers {
    Peers(x.b, x.a, x.bSeenByA, x.aSeenByB, x.pastB, x.pastA, x.toB, x.toA)
  }

  lemma PathEitherWay(s: Setup, p: Path)
    ensures AMoves(Swap(s), p) == BMoves(s, p) && BMoves(Swap(s), p) == AMoves(s, p)
    ensures FinalA(Swap(s), p) == FinalB(s, p) && FinalB(Swap(s), p) == FinalA(s, p)
    ensures Compatible(s, p) && Paired(s.oA, s.oB) ==> Compatible(Swap(s), p)
  {
    var l, r, b := Find(s.a0, p), Find(s.b0, p), Find(s.base, p);
    assert Agree(l, r) == Agree(r, l);
    assert Paired(s.oA, s.oB) && Resolvable(l, r, b, s.oA, s.oB) ==> Resolvable(r, l, b, s.oB, s.oA);
    hide Agree, Resolvable, Moves;
  }

  lemma EitherWay(s: Setup, x: Peers)
    ensures AllCompatible(s) ==> AllCompatible(Swap(s))
    ensures Invariant(s, x) ==> Invariant(Swap(s), SwapPeers(x))
    ensures forall p :: AMoves(Swap(s), p) == BMoves(s, p) && BMoves(Swap(s), p) == AMoves(s, p)
    ensures forall p :: FinalA(Swap(s), p) == FinalB(s, p) && FinalB(Swap(s), p) == FinalA(s, p)
  {
    forall p
      ensures AMoves(Swap(s), p) == BMoves(s, p) && BMoves(Swap(s), p) == AMoves(s, p)
      ensures FinalA(Swap(s), p) == FinalB(s, p) && FinalB(Swap(s), p) == FinalA(s, p)
      ensures Compatible(s, p) && Paired(s.oA, s.oB) ==> Compatible(Swap(s), p)
    {
      PathEitherWay(s, p);
    }
    assert Paired(s.oA, s.oB) == Paired(s.oB, s.oA);
    hide Compatible, AMoves, BMoves, FinalA, FinalB, Visible, Paired, Invariant;
    InvariantEitherWay(s, x);
  }

  lemma InvariantEitherWay(s: Setup, x: Peers)
    requires forall p :: AMoves(Swap(s), p) == BMoves(s, p) && BMoves(Swap(s), p) == AMoves(s, p)
    requires forall p :: FinalA(Swap(s), p) == FinalB(s, p) && FinalB(Swap(s), p) == FinalA(s, p)
    ensures Invariant(s, x) ==> Invariant(Swap(s), SwapPeers(x))
  {
    PastsEitherWay(s, x);
    hide AMoves, BMoves, FinalA, FinalB, PastOfA, PastOfB, ViewOf;
  }

  lemma PastsEitherWay(s: Setup, x: Peers)
    requires forall p :: FinalA(Swap(s), p) == FinalB(s, p) && FinalB(Swap(s), p) == FinalA(s, p)
    ensures forall t :: PastOfA(Swap(s), t) == PastOfB(s, t) && PastOfB(Swap(s), t) == PastOfA(s, t)
  {
    hide FinalA, FinalB, OnTheWay;
  }

  function SwapMove(m: Move): Move {
    match m
    case DropA(p) => DropB(p) case AskA(p) => AskB(p) case LandA(p) => LandB(p) case HearOfA(k) => HearOfB(k)
    case DropB(p) => DropA(p) case AskB(p) => AskA(p) case LandB(p) => LandA(p) case HearOfB(k) => HearOfA(k)
  }

  predicate ByA(m: Move) {
    m.DropA? || m.AskA? || m.LandA? || m.HearOfA?
  }

  lemma NextEitherWay(s: Setup, x: Peers, m: Move)
    requires Legal(s, x, m)
    ensures Legal(Swap(s), SwapPeers(x), SwapMove(m))
    ensures Next(Swap(s), SwapPeers(x), SwapMove(m)) == SwapPeers(Next(s, x, m))
  {
    hide Planned, Safe;
  }

  // ----- Runs -------------------------------------------------------------------

  lemma PastGrows(s: Setup, x: Peers, t: Tree, p: Path)
    requires Invariant(s, x) && Find(t, p) == FinalA(s, p) && forall q :: q != p ==> Find(t, q) == Find(x.a, q)
    ensures PastOfA(s, t) && ViewOf(x.aSeenByB, x.pastA + [t], s.safe)
    ensures forall k :: 0 <= k < |x.pastA + [t]| ==> PastOfA(s, (x.pastA + [t])[k])
  {
    assert PastOfA(s, x.a);
    var k :| 0 <= k < |x.pastA| && x.aSeenByB == Safe(x.pastA[k], s.safe);
    assert (x.pastA + [t])[k] == x.pastA[k];
    hide FinalA, Safe;
  }

  /** A tree of A's that differs from the last at one path only, where it is as A ends. */
  lemma NowAKeeps(s: Setup, x: Peers, t: Tree, p: Path)
    requires Invariant(s, x) && Find(t, p) == FinalA(s, p) && forall q :: q != p ==> Find(t, q) == Find(x.a, q)
    requires p !in x.toA
    ensures Invariant(s, NowA(x, t))
  {
    PastGrows(s, x, t, p);
    hide PastOfA, PastOfB, ViewOf, AMoves, BMoves, FinalA, FinalB;
  }

  lemma LandedKeeps(s: Setup, x: Peers, p: Path)
    requires Invariant(s, x) && p in x.toA
    ensures s.safe(p) && Some(x.toA[p]) == FinalA(s, p) && Invariant(s, x.(toA := x.toA - {p}))
  {
    hide PastOfA, PastOfB, ViewOf, AMoves, BMoves;
  }

  lemma AskedKeeps(s: Setup, x: Peers, p: Path)
    requires Invariant(s, x) && p in x.b && s.safe(p) && AMoves(s, p)
    requires Find(x.a, p) == Find(s.a0, p) && Find(x.b, p) == Find(s.b0, p)
    ensures Invariant(s, x.(toA := x.toA[p := x.b[p]]))
  {
    hide PastOfA, PastOfB, ViewOf, AMoves, BMoves;
  }

  lemma NothingToDrop(s: Setup, x: Peers, p: Path)
    requires Invariant(s, x) && Visible(s, s.b0, p) == None
    ensures p !in x.toA
  {
    hide PastOfA, PastOfB, ViewOf, AMoves, BMoves;
  }

  lemma AStepKeepsInvariant(s: Setup, x: Peers, m: Move)
    requires AllCompatible(s) && Invariant(s, x) && Legal(s, x, m) && ByA(m)
    ensures Invariant(s, Next(s, x, m))
  {
    hide AllCompatible, Planned, Invariant, AMoves, Safe, Visible;
    match m
    case DropA(p) =>
      PlannedByA(s, x, p, DeleteLocal);
      NothingToDrop(s, x, p);
      NowAKeeps(s, x, x.a - {p}, p);
    case AskA(p) =>
      PlannedByA(s, x, p, Pull);
      AskedKeeps(s, x, p);
    case LandA(p) =>
      LandedKeeps(s, x, p);
      NowAKeeps(s, x.(toA := x.toA - {p}), x.a[p := x.toA[p]], p);
    case HearOfA(k) =>
      HeardKeeps(s, x, k);
  }

  lemma HeardKeeps(s: Setup, x: Peers, k: nat)
    requires Invariant(s, x) && Legal(s, x, HearOfA(k))
    ensures Invariant(s, Next(s, x, HearOfA(k)))
  {
    hide PastOfA, PastOfB, Safe, AMoves, BMoves;
  }

  lemma StepKeepsInvariant(s: Setup, x: Peers, m: Move)
    requires AllCompatible(s) && Invariant(s, x) && Legal(s, x, m)
    ensures Invariant(s, Next(s, x, m))
  {
    if ByA(m) {
      AStepKeepsInvariant(s, x, m);
    } else {
      EitherWay(s, x);
      NextEitherWay(s, x, m);
      AStepKeepsInvariant(Swap(s), SwapPeers(x), SwapMove(m));
      EitherWay(Swap(s), SwapPeers(Next(s, x, m)));
    }
    hide Invariant, AllCompatible, Next, Legal;
  }

  /** What is left to do: a path both can see on which they disagree, or one only its holder
      can see and is to delete. */
  datatype Item = Apart(p: Path) | DoomedA(p: Path) | DoomedB(p: Path)

  predicate Open(s: Setup, x: Peers, item: Item) {
    match item
    case Apart(p) => s.safe(p) && !Agree(Find(x.a, p), Find(x.b, p))
    case DoomedA(p) => !s.safe(p) && p in x.a && Moves(Find(x.a, p), None, Find(s.base, p), s.oA)
    case DoomedB(p) => !s.safe(p) && p in x.b && Moves(Find(x.b, p), None, Find(s.base, p), s.oB)
  }

  function Items(s: Setup, x: Peers): set<Item> {
    (set p | p in x.a.Keys + x.b.Keys :: Apart(p)) + (set p | p in x.a.Keys :: DoomedA(p)) + (set p | p in x.b.Keys :: DoomedB(p))
  }

  ghost function Unsettled(s: Setup, x: Peers): (items: set<Item>)
    ensures forall item :: item in items <==> Open(s, x, item)
  {
    set item | item in Items(s, x) && Open(s, x, item)
  }

  function ItemOf(s: Setup, m: Move): Item
    requires Changes(m)
  {
    match m
    case DropA(p) => if s.safe(p) then Apart(p) else DoomedA(p)
    case DropB(p) => if s.safe(p) then Apart(p) else DoomedB(p)
    case LandA(p) => Apart(p)
    case LandB(p) => Apart(p)
  }

  lemma EmptyAgrees(b: Entry, o: Options)
    ensures !Moves(None, None, b, o) && Agree(None, None)
  {
  }

  /** A's drop or landing changes one path, from where it began to where it ends. */
  lemma AStepMoves(s: Setup, x: Peers, m: Move)
    requires AllCompatible(s) && Invariant(s, x) && Legal(s, x, m) && ByA(m) && Changes(m)
    ensures var y := Next(s, x, m);
            && AMoves(s, m.p) && Find(x.a, m.p) == Find(s.a0, m.p) && Find(y.a, m.p) == FinalA(s, m.p)
            && (forall q :: q != m.p ==> Find(y.a, q) == Find(x.a, q)) && y.b == x.b
            && (m.LandA? ==> s.safe(m.p)) && (s.safe(m.p) ==> Find(x.b, m.p) == Find(s.b0, m.p))
            && (!s.safe(m.p) ==> m.p in x.a)
  {
    var p := m.p;
    if m.DropA? {
      PlannedByA(s, x, p, DeleteLocal);
      PlannedMoves(p, s.base, x.a, x.bSeenByA, s.oA);
    }
    WhoMoves(s, p);
    assert PastOfB(s, x.b);
    hide Moves, Planned, Compatible, Safe, Agree, ViewOf, PastOfA;
  }

  /** It settles just what it is about. */
  lemma AStepSettles(s: Setup, x: Peers, m: Move, item: Item)
    requires AllCompatible(s) && Invariant(s, x) && Legal(s, x, m) && ByA(m) && Changes(m)
    ensures Open(s, x, ItemOf(s, m))
    ensures Open(s, Next(s, x, m), item) <==> Open(s, x, item) && item != ItemOf(s, m)
  {
    AStepMoves(s, x, m);
    WhoMoves(s, m.p);
    EmptyAgrees(Find(s.base, m.p), s.oA);
    AgreesWithItself(Find(s.b0, m.p), None, s.oA);
    hide Moves, Invariant, AllCompatible, Compatible, Agree, Next, Legal;
  }

  function SwapItem(item: Item): Item {
    match item case Apart(p) => Apart(p) case DoomedA(p) => DoomedB(p) case DoomedB(p) => DoomedA(p)
  }

  lemma OpenEitherWay(s: Setup, x: Peers, item: Item)
    ensures Open(Swap(s), SwapPeers(x), SwapItem(item)) == Open(s, x, item)
  {
    if item.Apart? {
      assert Agree(Find(x.a, item.p), Find(x.b, item.p)) == Agree(Find(x.b, item.p), Find(x.a, item.p));
    }
    hide Agree, Moves;
  }

  lemma StepSettles(s: Setup, x: Peers, m: Move, item: Item)
    requires AllCompatible(s) && Invariant(s, x) && Legal(s, x, m) && Changes(m)
    ensures Open(s, x, ItemOf(s, m))
    ensures Open(s, Next(s, x, m), item) <==> Open(s, x, item) && item != ItemOf(s, m)
  {
    if ByA(m) {
      AStepSettles(s, x, m, item);
    } else {
      EitherWay(s, x);
      NextEitherWay(s, x, m);
      AStepSettles(Swap(s), SwapPeers(x), SwapMove(m), SwapItem(item));
      OpenEitherWay(s, x, item);
      OpenEitherWay(s, x, ItemOf(s, m));
      OpenEitherWay(s, Next(s, x, m), item);
    }
    hide Invariant, AllCompatible, Next, Legal, Open;
  }

  lemma StepShrinks(s: Setup, x: Peers, m: Move)
    requires AllCompatible(s) && Invariant(s, x) && Legal(s, x, m)
    ensures |Unsettled(s, Next(s, x, m))| + (if Changes(m) then 1 else 0) == |Unsettled(s, x)|
  {
    var y := Next(s, x, m);
    if Changes(m) {
      forall item
        ensures item in Unsettled(s, y) <==> item in Unsettled(s, x) && item != ItemOf(s, m)
      {
        StepSettles(s, x, m, item);
      }
      StepSettles(s, x, m, ItemOf(s, m));
      hide *;
      Without(Unsettled(s, x), Unsettled(s, y), ItemOf(s, m));
    } else {
      HearingSettlesNothing(s, x, m);
    }
  }

  lemma Without(before: set<Item>, after: set<Item>, item: Item)
    requires item in before && forall other :: other in after <==> other in before && other != item
    ensures |after| + 1 == |before|
  {
    assert after == before - {item};
  }

  lemma HearingSettlesNothing(s: Setup, x: Peers, m: Move)
    requires Legal(s, x, m) && !Changes(m)
    ensures Unsettled(s, Next(s, x, m)) == Unsettled(s, x)
  {
    var y := Next(s, x, m);
    assert y.a == x.a && y.b == x.b;
    hide Legal, Next;
    assert forall item :: Open(s, y, item) == Open(s, x, item);
  }

  lemma StartSatisfies(s: Setup)
    ensures Invariant(s, Start(s))
  {
    var x := Start(s);
    assert x.aSeenByB == Safe(x.pastA[0], s.safe) && x.bSeenByA == Safe(x.pastB[0], s.safe);
  }

  /** Safety over every run: the invariant holds, and the landings and deletions carried out
      plus what is left to settle is what there was to settle. */
  lemma {:induction false} RunsAreSafe(s: Setup, moves: seq<Move>)
    requires AllCompatible(s) && RunTo(s, moves).Some?
    ensures Invariant(s, RunTo(s, moves).value)
    ensures Actions(moves) + |Unsettled(s, RunTo(s, moves).value)| == |Unsettled(s, Start(s))|
  {
    if moves == [] {
      StartSatisfies(s);
    } else {
      var before, m := moves[..|moves| - 1], moves[|moves| - 1];
      RunsAreSafe(s, before);
      hide Invariant, AllCompatible, Legal, Unsettled, Next;
      StepKeepsInvariant(s, RunTo(s, before).value, m);
      StepShrinks(s, RunTo(s, before).value, m);
    }
  }

  /** Both peers have heard all they can of the other's current tree, nothing is on its way,
      and neither plan moves anything. */
  ghost predicate Quiet(s: Setup, x: Peers) {
    Caught(s, x) && forall p :: QuietAt(s, x, p)
  }

  predicate Caught(s: Setup, x: Peers) {
    x.aSeenByB == Safe(x.a, s.safe) && x.bSeenByA == Safe(x.b, s.safe) && x.toA == map[] && x.toB == map[]
  }

  predicate QuietAt(s: Setup, x: Peers, p: Path) {
    !Legal(s, x, DropA(p)) && !Legal(s, x, AskA(p)) && !Legal(s, x, DropB(p)) && !Legal(s, x, AskB(p))
  }

  lemma QuietA(s: Setup, x: Peers, p: Path)
    requires AllCompatible(s) && Invariant(s, x) && Caught(s, x) && !Legal(s, x, DropA(p)) && !Legal(s, x, AskA(p))
    ensures Find(x.a, p) == FinalA(s, p)
  {
    WhoMoves(s, p);
    assert PastOfA(s, x.a) && PastOfB(s, x.b);
    PlannedMoves(p, s.base, x.a, x.bSeenByA, s.oA);
    SafeShows(s, x.b, p);
    hide Moves, Planned, Agree, Compatible, Safe, PastOfA, PastOfB, ViewOf;
  }

  lemma QuietPath(s: Setup, x: Peers, p: Path)
    requires AllCompatible(s) && Invariant(s, x) && Caught(s, x) && QuietAt(s, x, p)
    ensures Find(x.a, p) == FinalA(s, p) && Find(x.b, p) == FinalB(s, p)
    ensures s.safe(p) ==> Agree(Find(x.a, p), Find(x.b, p))
  {
    hide Invariant, Agree, FinalA, FinalB, AMoves, BMoves, Compatible, Planned;
    QuietA(s, x, p);
    EitherWay(s, x);
    QuietA(Swap(s), SwapPeers(x), p);
    WhoMoves(s, p);
  }

  /** Convergence: every run that has gone quiet has reached the one outcome the initial
      trees determine, the trees agree on every path both can see, nothing is left to
      settle, and it took exactly as many landings and deletions as there was to settle. */
  lemma QuietMeansConverged(s: Setup, moves: seq<Move>)
    requires AllCompatible(s) && RunTo(s, moves).Some? && Quiet(s, RunTo(s, moves).value)
    ensures var x := RunTo(s, moves).value;
            && (forall p :: Find(x.a, p) == FinalA(s, p) && Find(x.b, p) == FinalB(s, p))
            && (forall p :: s.safe(p) ==> Agree(Find(x.a, p), Find(x.b, p)))
            && Unsettled(s, x) == {}
    ensures Actions(moves) == |Unsettled(s, Start(s))|
  {
    var x := RunTo(s, moves).value;
    RunsAreSafe(s, moves);
    forall p
      ensures Find(x.a, p) == FinalA(s, p) && Find(x.b, p) == FinalB(s, p)
      ensures s.safe(p) ==> Agree(Find(x.a, p), Find(x.b, p))
      ensures !Open(s, x, DoomedA(p)) && !Open(s, x, DoomedB(p))
    {
      QuietPath(s, x, p);
      NotDoomed(s, x, p);
    }
    hide *;
    assert forall item :: item in Unsettled(s, x) ==> false by {
      NothingOpen(s, x);
    }
  }

  lemma NothingOpen(s: Setup, x: Peers)
    requires forall p :: s.safe(p) ==> Agree(Find(x.a, p), Find(x.b, p))
    requires forall p :: !Open(s, x, DoomedA(p)) && !Open(s, x, DoomedB(p))
    ensures Unsettled(s, x) == {}
  {
    forall item
      ensures !Open(s, x, item)
    {
      match item case Apart(p) => case DoomedA(p) => case DoomedB(p) =>
    }
    hide Open;
  }

  lemma NotDoomed(s: Setup, x: Peers, p: Path)
    requires Caught(s, x) && QuietAt(s, x, p)
    ensures !Open(s, x, DoomedA(p)) && !Open(s, x, DoomedB(p))
  {
    SafeShows(s, x.a, p);
    SafeShows(s, x.b, p);
    PlannedMoves(p, s.base, x.a, x.bSeenByA, s.oA);
    PlannedMoves(p, s.base, x.b, x.aSeenByB, s.oB);
    hide Planned, Moves, Safe;
  }

  /** No run gets stuck: while something is left to settle, once each peer has heard all it
      can and nothing is on its way, some request or deletion is possible. */
  lemma UnsettledMeansWork(s: Setup, moves: seq<Move>)
    requires AllCompatible(s) && RunTo(s, moves).Some?
    requires var x := RunTo(s, moves).value; Unsettled(s, x) != {} && Caught(s, x)
    ensures exists p :: !QuietAt(s, RunTo(s, moves).value, p)
  {
    if Quiet(s, RunTo(s, moves).value) {
      QuietMeansConverged(s, moves);
    }
    hide QuietAt, Unsettled, AllCompatible;
  }

  // ----- What is left at rest ---------------------------------------------------

  lemma RestPlan(s: Setup, x: Peers, base: Tree, local: Tree, peer: Tree, o: Options, plan: SyncPlan)
    requires forall p :: s.safe(p) ==> Agree(Find(local, p), Find(peer, p))
    requires IsPlan(plan, base, local, Safe(peer, s.safe), o)
    ensures plan.Empty() <==> forall p :: p in local && !s.safe(p) ==> KeepsDeleted(Find(local, p), None, Find(base, p), o)
  {
    PlanIsEmptyExactly(plan, base, local, Safe(peer, s.safe), o);
    forall p
      ensures Agree(Find(local, p), Find(Safe(peer, s.safe), p)) <==> s.safe(p) || p !in local
    {
      SafeShows(s, peer, p);
    }
    assert forall p :: p in local && !s.safe(p) ==> Find(Safe(peer, s.safe), p) == None;
    hide IsPlan, KeepsDeleted, Agree, Safe;
  }

  /** At rest, whatever the baseline: a peer's plan is empty exactly when every path of its
      tree that the other can never hear of is one it was told to keep though deleted; with
      deletions on, when there is none. */
  lemma PlansAtRest(s: Setup, moves: seq<Move>, base: Tree, planA: SyncPlan, planB: SyncPlan)
    requires AllCompatible(s) && RunTo(s, moves).Some? && Quiet(s, RunTo(s, moves).value)
    requires var x := RunTo(s, moves).value;
             IsPlan(planA, base, x.a, x.bSeenByA, s.oA) && IsPlan(planB, base, x.b, x.aSeenByB, s.oB)
    ensures var x := RunTo(s, moves).value;
            && (planA.Empty() <==> forall p :: p in x.a && !s.safe(p) ==> KeepsDeleted(Find(x.a, p), None, Find(base, p), s.oA))
            && (planB.Empty() <==> forall p :: p in x.b && !s.safe(p) ==> KeepsDeleted(Find(x.b, p), None, Find(base, p), s.oB))
            && (s.oA.propagateDeletes && s.oB.propagateDeletes ==>
                  (planA.Empty() && planB.Empty() <==> forall p :: p in x.a || p in x.b ==> s.safe(p)))
  {
    var x := RunTo(s, moves).value;
    QuietMeansConverged(s, moves);
    hide RunTo, Actions, Unsettled, AllCompatible, FinalA, FinalB, IsPlan;
    assert forall p :: s.safe(p) ==> Agree(Find(x.b, p), Find(x.a, p));
    RestPlan(s, x, base, x.a, x.b, s.oA, planA);
    RestPlan(s, x, base, x.b, x.a, s.oB, planB);
    hide QuietAt, Agree, Safe;
  }

  /** A path the other peer's rules call unsafe, new on one side: in no run does the other
      get it, and the plan to push it never goes away, so this peer is never in sync. */
  lemma {:induction false} UnsafePathNeverSettles(s: Setup, moves: seq<Move>, p: Path)
    requires !s.safe(p) && p in s.a0 && p !in s.b0 && p !in s.base && s.oA.mode == TwoWay
    requires RunTo(s, moves).Some?
    ensures var x := RunTo(s, moves).value;
            && Find(x.a, p) == Find(s.a0, p) && p !in x.b && p !in x.toA && p !in x.toB
            && p !in x.bSeenByA && p !in x.aSeenByB
    ensures forall plan :: var x := RunTo(s, moves).value;
              IsPlan(plan, s.base, x.a, x.bSeenByA, s.oA) ==> p in plan.push && !plan.Empty()
  {
    var x := RunTo(s, moves).value;
    if moves != [] {
      var y, m := RunTo(s, moves[..|moves| - 1]).value, moves[|moves| - 1];
      UnsafePathNeverSettles(s, moves[..|moves| - 1], p);
      StaysUnheard(s, y, m, p);
    }
    hide RunTo, Next, Legal, Start;
    assert DecidePath(p, s.base, x.a, x.bSeenByA, s.oA) == Decision(Push, false);
    hide DecidePath;
  }

  lemma StaysUnheard(s: Setup, y: Peers, m: Move, p: Path)
    requires !s.safe(p) && p in s.a0 && p !in s.base && s.oA.mode == TwoWay && Legal(s, y, m)
    requires Find(y.a, p) == Find(s.a0, p) && p !in y.b && p !in y.toA && p !in y.toB && p !in y.bSeenByA && p !in y.aSeenByB
    ensures var x := Next(s, y, m);
            && Find(x.a, p) == Find(s.a0, p) && p !in x.b && p !in x.toA && p !in x.toB
            && p !in x.bSeenByA && p !in x.aSeenByB
  {
    NothingToAct(p, s.base, y.a, y.bSeenByA, s.oA);
    NothingToAct(p, s.base, y.b, y.aSeenByB, s.oB);
    hide Planned, Safe;
    if m.HearOfA? || m.HearOfB? {
      UnsafeIsUnheard(s, if m.HearOfA? then y.pastA[m.k] else y.pastB[m.k], p);
    } else if m.p != p {
      ElsewhereIsElsewhere(s, y, m, p);
    }
  }

  lemma UnsafeIsUnheard(s: Setup, t: Tree, p: Path)
    requires !s.safe(p)
    ensures p !in Safe(t, s.safe)
  {
  }

  /** A move about one path leaves every other alone. */
  lemma ElsewhereIsElsewhere(s: Setup, y: Peers, m: Move, p: Path)
    requires Legal(s, y, m) && !m.HearOfA? && !m.HearOfB? && m.p != p
    ensures var x := Next(s, y, m);
            && Find(x.a, p) == Find(y.a, p) && Find(x.b, p) == Find(y.b, p)
            && Find(x.toA, p) == Find(y.toA, p) && Find(x.toB, p) == Find(y.toB, p)
            && x.bSeenByA == y.bSeenByA && x.aSeenByB == y.aSeenByB
  {
    hide Planned, Safe;
  }

  /** A path unseen on the other side and not in the baseline is neither pulled nor deleted where
      it is, nor anything where it is not. */
  lemma NothingToAct(p: Path, base: Tree, local: Tree, view: Tree, o: Options)
    requires p !in view && p !in base
    ensures !Planned(p, base, local, view, o, Pull)
    ensures o.mode == TwoWay || p !in local ==> !Planned(p, base, local, view, o, DeleteLocal)
  {
  }

  // ----- A source and its replica -----------------------------------------------

  predicate Mirrors(s: Setup) {
    s.oA.mode == Mirror && s.oB.mode == Mirror && s.oA.source && !s.oB.source
  }

  /** The source is as it began, in its tree, in its past and in all that leaves it. */
  ghost predicate SourceStands(s: Setup, x: Peers) {
    && x.a == s.a0 && x.toA == map[] && (forall k :: 0 <= k < |x.pastA| ==> x.pastA[k] == s.a0)
    && x.aSeenByB == Safe(s.a0, s.safe) && forall p :: p in x.toB ==> p in s.a0 && x.toB[p] == s.a0[p]
  }

  lemma SourceStandsStill(s: Setup, x: Peers, m: Move)
    requires Mirrors(s) && SourceStands(s, x) && Legal(s, x, m)
    ensures SourceStands(s, Next(s, x, m))
  {
    hide Safe;
  }

  /** In no run does the source of a mirror change, whatever its replica holds. */
  lemma {:induction false} SourceNeverYields(s: Setup, moves: seq<Move>)
    requires Mirrors(s) && RunTo(s, moves).Some?
    ensures SourceStands(s, RunTo(s, moves).value)
  {
    if moves != [] {
      SourceNeverYields(s, moves[..|moves| - 1]);
      SourceStandsStill(s, RunTo(s, moves[..|moves| - 1]).value, moves[|moves| - 1]);
      hide SourceStands, Next, Legal, Mirrors;
    } else {
      hide Safe;
    }
  }

  /** And at rest the replica has a copy of it on every path both can see, in size and hash, and,
      told to delete, nothing else. */
  lemma ReplicaEndsEqual(s: Setup, moves: seq<Move>, p: Path)
    requires Mirrors(s) && RunTo(s, moves).Some? && Quiet(s, RunTo(s, moves).value) && s.safe(p)
    ensures var x := RunTo(s, moves).value;
            && x.a == s.a0
            && (p in s.a0 ==> p in x.b && x.b[p].size == s.a0[p].size && x.b[p].hash == s.a0[p].hash)
            && (p !in s.a0 && s.oB.propagateDeletes ==> p !in x.b)
  {
    var x := RunTo(s, moves).value;
    SourceNeverYields(s, moves);
    assert QuietAt(s, x, p);
    SafeShows(s, s.a0, p);
    assert x.aSeenByB == Safe(s.a0, s.safe) && x.toB == map[];
    hide RunTo, Safe, Quiet;
  }

  // ----- Exactly when runs converge ---------------------------------------------

  /** What a run owes: every landing and deletion settled something, and where nothing is
      left to do at a path both can see, they agree there. */
  ghost predicate Converges(s: Setup, moves: seq<Move>)
    requires RunTo(s, moves).Some?
  {
    var x := RunTo(s, moves).value;
    && Actions(moves) + |Unsettled(s, x)| == |Unsettled(s, Start(s))|
    && forall p :: s.safe(p) && Caught(s, x) && QuietAt(s, x, p) ==> Agree(Find(x.a, p), Find(x.b, p))
  }

  lemma RunSnoc(s: Setup, moves: seq<Move>, m: Move)
    requires RunTo(s, moves).Some? && Legal(s, RunTo(s, moves).value, m)
    ensures RunTo(s, moves + [m]) == Some(Next(s, RunTo(s, moves).value, m))
    ensures Actions(moves + [m]) == Actions(moves) + (if Changes(m) then 1 else 0)
  {
    assert (moves + [m])[..|moves|] == moves;
  }

  /** Where neither peer moves the trees stay apart from the start; where both do, each
      pulls what the other is about to give up. */
  lemma IncompatibleMoves(s: Setup, p: Path)
    requires Paired(s.oA, s.oB) && !Compatible(s, p)
    ensures s.safe(p) && !Agree(Find(s.a0, p), Find(s.b0, p))
    ensures AMoves(s, p) == BMoves(s, p)
    ensures AMoves(s, p) ==> Planned(p, s.base, s.a0, Safe(s.b0, s.safe), s.oA, Pull) && Planned(p, s.base, s.b0, Safe(s.a0, s.safe), s.oB, Pull)
    ensures !AMoves(s, p) ==> QuietAt(s, Start(s), p)
  {
    var l, r, b := Find(s.a0, p), Find(s.b0, p), Find(s.base, p);
    ExactlyOneActs(l, r, b, s.oA, s.oB);
    SafeShows(s, s.a0, p);
    SafeShows(s, s.b0, p);
    PlannedMoves(p, s.base, s.a0, Safe(s.b0, s.safe), s.oA);
    PlannedMoves(p, s.base, s.b0, Safe(s.a0, s.safe), s.oB);
    if Acts(l, r, b, s.oA) && Acts(r, l, b, s.oB) {
      BothPull(l, r, b, s.oA, s.oB);
    }
    hide Decide, Resolvable, Safe, Agree;
  }

  lemma BothPull(l: Entry, r: Entry, b: Entry, o1: Options, o2: Options)
    requires Paired(o1, o2) && !Agree(l, r) && Acts(l, r, b, o1) && Acts(r, l, b, o2)
    ensures l.Some? && r.Some? && Decide(l, r, b, o1).kind == Pull && Decide(r, l, b, o2).kind == Pull
  {
  }

  lemma OwesB(s: Setup, p: Path)
    requires s.safe(p) && p in s.b0 && Planned(p, s.base, s.a0, Safe(s.b0, s.safe), s.oA, Pull)
    ensures var x0 := Start(s);
            Legal(s, x0, AskA(p)) && Next(s, x0, AskA(p)) == x0.(toA := map[p := s.b0[p]])
  {
    hide Planned, Safe;
  }

  lemma OwesA(s: Setup, p: Path)
    requires s.safe(p) && p in s.a0 && p in s.b0 && Planned(p, s.base, s.b0, Safe(s.a0, s.safe), s.oB, Pull)
    ensures var x1 := Start(s).(toA := map[p := s.b0[p]]);
            Legal(s, x1, AskB(p)) && Next(s, x1, AskB(p)) == x1.(toB := map[p := s.a0[p]])
  {
    hide Planned, Safe;
  }

  /** The state with both versions on their way, and what it comes to when they have landed. */
  lemma BothLand(s: Setup, p: Path) returns (x2: Peers, x3: Peers, x4: Peers)
    requires p in s.a0 && p in s.b0
    ensures x2 == Start(s).(toA := map[p := s.b0[p]], toB := map[p := s.a0[p]])
    ensures Legal(s, x2, LandA(p)) && Next(s, x2, LandA(p)) == x3
    ensures Legal(s, x3, LandB(p)) && Next(s, x3, LandB(p)) == x4
    ensures x4.a == s.a0[p := s.b0[p]] && x4.b == s.b0[p := s.a0[p]]
  {
    x2 := Start(s).(toA := map[p := s.b0[p]], toB := map[p := s.a0[p]]);
    x3 := NowA(x2, s.a0[p := s.b0[p]]).(toA := map[]);
    x4 := NowB(x3, s.b0[p := s.a0[p]]).(toB := map[]);
    hide Safe;
    assert map[p := s.b0[p]] - {p} == map[] && map[p := s.a0[p]] - {p} == map[];
  }

  /** Both ask before either lands: the two versions swap places, and nothing is settled. */
  lemma SwapRun(s: Setup, p: Path)
    requires s.safe(p) && !Agree(Find(s.a0, p), Find(s.b0, p))
    requires Planned(p, s.base, s.a0, Safe(s.b0, s.safe), s.oA, Pull) && Planned(p, s.base, s.b0, Safe(s.a0, s.safe), s.oB, Pull)
    ensures var moves := [AskA(p), AskB(p), LandA(p), LandB(p)];
            && RunTo(s, moves).Some? && Actions(moves) == 2
            && var x := RunTo(s, moves).value;
               && Find(x.a, p) == Find(s.b0, p) && Find(x.b, p) == Find(s.a0, p)
               && Unsettled(s, x) == Unsettled(s, Start(s))
  {
    PlannedMoves(p, s.base, s.a0, Safe(s.b0, s.safe), s.oA);
    PlannedMoves(p, s.base, s.b0, Safe(s.a0, s.safe), s.oB);
    assert p in s.a0 && p in s.b0;
    assert Start(s).a == s.a0 && Start(s).b == s.b0;
    assert !Changes(AskA(p)) && !Changes(AskB(p)) && Changes(LandA(p)) && Changes(LandB(p));
    hide Planned, Unsettled, Agree, Legal, Next, Start, RunTo, Actions, Changes, Safe;
    OwesB(s, p);
    OwesA(s, p);
    var x2, x3, x4 := BothLand(s, p);
    FourMoves(s, AskA(p), AskB(p), LandA(p), LandB(p), Start(s).(toA := map[p := s.b0[p]]), x2, x3, x4);
    SwappedUnsettled(s, Start(s), x4, p);
  }

  lemma NoMoves(s: Setup)
    ensures RunTo(s, []) == Some(Start(s)) && Actions([]) == 0
  {
  }

  lemma TwoMoves(s: Setup, moves: seq<Move>, m1: Move, m2: Move, x: Peers, x1: Peers, x2: Peers)
    requires RunTo(s, moves) == Some(x) && Legal(s, x, m1) && Next(s, x, m1) == x1 && Legal(s, x1, m2) && Next(s, x1, m2) == x2
    requires Changes(m1) == Changes(m2)
    ensures RunTo(s, moves + [m1, m2]) == Some(x2) && Actions(moves + [m1, m2]) == Actions(moves) + (if Changes(m1) then 2 else 0)
  {
    hide *;
    RunSnoc(s, moves, m1);
    RunSnoc(s, moves + [m1], m2);
    assert moves + [m1] + [m2] == moves + [m1, m2];
  }

  lemma FourMoves(s: Setup, m1: Move, m2: Move, m3: Move, m4: Move, x1: Peers, x2: Peers, x3: Peers, x4: Peers)
    requires Legal(s, Start(s), m1) && Next(s, Start(s), m1) == x1
    requires Legal(s, x1, m2) && Next(s, x1, m2) == x2
    requires Legal(s, x2, m3) && Next(s, x2, m3) == x3
    requires Legal(s, x3, m4) && Next(s, x3, m4) == x4
    requires !Changes(m1) && !Changes(m2) && Changes(m3) && Changes(m4)
    ensures RunTo(s, [m1, m2, m3, m4]) == Some(x4) && Actions([m1, m2, m3, m4]) == 2
  {
    hide *;
    NoMoves(s);
    TwoMoves(s, [], m1, m2, Start(s), x1, x2);
    TwoMoves(s, [] + [m1, m2], m3, m4, x2, x3, x4);
    assert [] + [m1, m2] + [m3, m4] == [m1, m2, m3, m4];
  }

  lemma SwappedUnsettled(s: Setup, x: Peers, y: Peers, p: Path)
    requires s.safe(p) && Find(y.a, p) == Find(x.b, p) && Find(y.b, p) == Find(x.a, p)
    requires forall q :: q != p ==> Find(y.a, q) == Find(x.a, q) && Find(y.b, q) == Find(x.b, q)
    ensures Unsettled(s, y) == Unsettled(s, x)
  {
    forall item
      ensures Open(s, y, item) == Open(s, x, item)
    {
      assert Agree(Find(x.a, p), Find(x.b, p)) == Agree(Find(x.b, p), Find(x.a, p));
      hide Agree, Moves;
      assert item.p in x.a <==> Find(x.a, item.p).Some?;
      assert item.p in x.b <==> Find(x.b, item.p).Some?;
      assert item.p in y.a <==> Find(y.a, item.p).Some?;
      assert item.p in y.b <==> Find(y.b, item.p).Some?;
    }
    hide Open;
  }

  /** Exactly when all runs converge, for paired options: on every path both can see where
      they disagree, the tie can be broken and no needed deletion is switched off. */
  lemma ConvergenceExactly(s: Setup)
    requires Paired(s.oA, s.oB)
    ensures (forall p :: Compatible(s, p)) <==> forall moves :: RunTo(s, moves).Some? ==> Converges(s, moves)
  {
    if forall p :: Compatible(s, p) {
      forall moves | RunTo(s, moves).Some?
        ensures Converges(s, moves)
      {
        CompatibleConverges(s, moves);
      }
    } else {
      var p :| !Compatible(s, p);
      var moves := IncompatibleRun(s, p);
    }
  }

  lemma CompatibleConverges(s: Setup, moves: seq<Move>)
    requires AllCompatible(s) && RunTo(s, moves).Some?
    ensures Converges(s, moves)
  {
    RunsAreSafe(s, moves);
    var x := RunTo(s, moves).value;
    forall p | s.safe(p) && Caught(s, x) && QuietAt(s, x, p)
      ensures Agree(Find(x.a, p), Find(x.b, p))
    {
      QuietPath(s, x, p);
    }
    hide AllCompatible, Invariant, QuietAt, Unsettled;
  }

  lemma IncompatibleRun(s: Setup, p: Path) returns (moves: seq<Move>)
    requires Paired(s.oA, s.oB) && !Compatible(s, p)
    ensures RunTo(s, moves).Some? && !Converges(s, moves)
  {
    IncompatibleMoves(s, p);
    if AMoves(s, p) {
      SwapRun(s, p);
      moves := [AskA(p), AskB(p), LandA(p), LandB(p)];
    } else {
      moves := [];
    }
    hide QuietAt, AMoves, BMoves, Compatible, Planned, Unsettled, Agree;
  }
}
