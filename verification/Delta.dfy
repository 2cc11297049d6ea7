/** The rsync-style delta engine: signatures, the rolling-checksum scan, and the
    patcher. The strong hash is an arbitrary function; a lemma that needs it to be
    collision-free says so. */
module Delta {
  import opened Types

  const DEFAULT_BLOCK_SIZE: u32 := 2048

  datatype BlockSig = BlockSig(weak: u32, strong: Strong)

  datatype Signature = Signature(blockSize: u32, fileSize: u64, blocks: seq<BlockSig>)

  datatype DeltaOp = Copy(offset: nat, len: u32) | Literal(data: Bytes)

  datatype Delta = Delta(outSize: nat, ops: seq<DeltaOp>)

  // ----- The weak checksum ------------------------------------------------------

  function Wrap32(x: int): u32 { x % MOD32 }

  /** The sum of the bytes, and the sum of all running sums: the mathematical
      checksum pair, with no machine word in sight. */
  function SumA(s: Bytes): nat {
    if s == [] then 0 else SumA(s[..|s| - 1]) + s[|s| - 1]
  }

  function SumB(s: Bytes): nat {
    if s == [] then 0 else SumB(s[..|s| - 1]) + SumA(s)
  }

  function Pack(a: u32, b: u32): u32 {
    (b % MOD16) * MOD16 + a % MOD16
  }

  function Weak(s: Bytes): u32 {
    (SumB(s) % MOD16) * MOD16 + SumA(s) % MOD16
  }

  /** The checksum of a small block: 6 is the plain sum, 10 the weighted one. */
  lemma WeakOfThree()
    ensures Weak([1, 2, 3]) == 10 * 0x1_0000 + 6
  {
    assert [1, 2, 3][..2] == [1, 2] && [1, 2][..1] == [1] && [1][..0] == [];
  }

  lemma {:induction false} SumsOfCons(x: byte, s: Bytes)
    ensures SumA([x] + s) == x + SumA(s)
    ensures SumB([x] + s) == (|s| + 1) * x + SumB(s)
  {
    if s == [] {
      assert [x] + s == [x];
      assert [x][..0] == [];
    } else {
      SumsOfCons(x, s[..|s| - 1]);
      assert ([x] + s)[..|s|] == [x] + s[..|s| - 1];
    }
  }

  lemma SumsOfSnoc(s: Bytes, x: byte)
    ensures SumA(s + [x]) == SumA(s) + x
    ensures SumB(s + [x]) == SumB(s) + SumA(s) + x
  {
    assert (s + [x])[..|s|] == s;
  }

  lemma Wrap32Plus(k: int, r: int)
    ensures Wrap32(k * MOD32 + r) == Wrap32(r)
  {
  }

  lemma Wrap32Mod16(x: int)
    ensures Wrap32(x) % MOD16 == x % MOD16
  {
  }

  lemma Distribute(q: int, m: int, r: int, x: int)
    ensures (q * m + r) * x == (q * x) * m + r * x
  {
  }

  lemma WrapSum(b: int, y: int)
    ensures Wrap32(Wrap32(b) + Wrap32(y)) == Wrap32(b + y)
  {
  }

  /** One term of the weighted sum, in 32-bit arithmetic. */
  lemma WeightedTerm(b: int, weight: int, x: int)
    ensures Wrap32(Wrap32(b) + Wrap32(Wrap32(weight) * x)) == Wrap32(b + weight * x)
  {
    var q, r := weight / MOD32, Wrap32(weight);
    Distribute(q, MOD32, r, x);
    Wrap32Plus(q * x, r * x);
    WrapSum(b, r * x);
    WrapSum(b, weight * x);
  }

  /** What the weighted sum of a window holds once its prefix w is in, with k bytes
      still to come. */
  ghost function Weighted(k: nat, w: Bytes): int {
    SumB(w) + k * SumA(w)
  }

  lemma NoSums(k: nat)
    ensures Wrap32(SumA([])) == 0 && Wrap32(Weighted(k, [])) == 0
  {
  }

  lemma WeightedWhole(w: Bytes)
    ensures Weighted(0, w) == SumB(w)
  {
  }

  lemma WeightedSnoc(k: nat, w: Bytes, x: byte)
    ensures Weighted(k, w + [x]) == Weighted(k + 1, w) + (k + 1) * x
  {
    SumsOfSnoc(w, x);
    Expand(k, SumA(w), x);
  }

  lemma Expand(k: int, a: int, x: int)
    ensures a + x + k * (a + x) == (k + 1) * a + (k + 1) * x
  {
  }

  lemma WindowStepA(w: Bytes, x: byte)
    ensures Wrap32(Wrap32(SumA(w)) + x) == Wrap32(SumA(w + [x]))
  {
    SumsOfSnoc(w, x);
    WrapSum(SumA(w), x);
  }

  lemma WindowStepB(k: nat, w: Bytes, x: byte)
    ensures AddTerm(Wrap32(Weighted(k + 1, w)), k + 1, x) == Wrap32(Weighted(k, w + [x]))
  {
    WeightedTerm(Weighted(k + 1, w), k + 1, x);
    WeightedSnoc(k, w, x);
  }

  function AddTerm(b: u32, weight: nat, x: byte): u32 {
    Wrap32(b + Wrap32(Wrap32(weight) * x))
  }

  /** The weighted-sum loop: byte i of an n-byte window counts n - i times, and every
      operation wraps at 32 bits. It computes the running-sum pair. */
  method WindowSums(data: Bytes, at: nat, n: nat) returns (a: u32, b: u32)
    requires at + n <= |data|
    ensures a == Wrap32(SumA(data[at..at + n])) && b == Wrap32(SumB(data[at..at + n]))
  {
    hide *;
    a, b := 0, 0;
    NoSums(n);
    assert data[at..at + 0] == [];
    for i := 0 to n
      invariant a == Wrap32(SumA(data[at..at + i]))
      invariant b == Wrap32(Weighted(n - i, data[at..at + i]))
    {
      var x, k := data[at + i], n - i;
      ghost var w := data[at..at + i];
      assert data[at..at + (i + 1)] == w + [x];
      WindowStepA(w, x);
      WindowStepB(k - 1, w, x);
      a := Wrap32(a + x);
      b := AddTerm(b, k, x);
    }
    WeightedWhole(data[at..at + n]);
  }

  lemma PackIsWeak(a: u32, b: u32, s: Bytes)
    requires Tracks(a, b, s)
    ensures Pack(a, b) == Weak(s)
  {
  }

  lemma {:induction false} WrappedSumsTrack(s: Bytes)
    ensures Tracks(Wrap32(SumA(s)), Wrap32(SumB(s)), s)
  {
    Wrap32Mod16(SumA(s));
    Wrap32Mod16(SumB(s));
  }

  method WeakChecksum(data: Bytes) returns (w: u32)
    ensures w == Weak(data)
  {
    var a: u32, b: u32 := WindowSums(data, 0, |data|);
    assert data[0..|data|] == data;
    WrappedSumsTrack(data);
    PackIsWeak(a, b, data);
    w := Pack(a, b);
  }

  /** The checksum pair (a, b) stands for window w: equal to its sums modulo 2^16,
      which is all the packed checksum keeps. It is not always reduced: a fresh
      window holds full 32-bit sums, a rolled one 16-bit ones. */
  predicate Tracks(a: u32, b: u32, w: Bytes) {
    a % MOD16 == SumA(w) % MOD16 && b % MOD16 == SumB(w) % MOD16
  }

  function RollA(a: u32, out: byte, inn: byte): u32 {
    Wrap32(a - out + inn) % MOD16
  }

  function RollB(b: u32, l: u32, out: byte, a: u32): u32 {
    Wrap32(b - Wrap32(l * out) + a) % MOD16
  }

  /** Sliding the window one byte keeps the pair in step with it. */
  lemma RollTracks(a: u32, b: u32, w: Bytes, inn: byte)
    requires 0 < |w| < MOD32 && Tracks(a, b, w)
    ensures var a' := RollA(a, w[0], inn);
            Tracks(a', RollB(b, |w|, w[0], a'), w[1..] + [inn])
  {
    var out, w' := w[0], w[1..] + [inn];
    RolledSums(w, inn);
    RollAArithmetic(a, SumA(w), inn - out);
    RollBArithmetic(b, SumB(w), |w| * out, RollA(a, out, inn), SumA(w'));
  }

  lemma {:induction false} RolledSums(w: Bytes, inn: byte)
    requires w != []
    ensures SumA(w[1..] + [inn]) == SumA(w) - w[0] + inn
    ensures SumB(w[1..] + [inn]) == SumB(w) - |w| * w[0] + SumA(w[1..] + [inn])
  {
    assert w == [w[0]] + w[1..];
    SumsOfCons(w[0], w[1..]);
    SumsOfSnoc(w[1..], inn);
  }

  lemma Shifted(x: int, k: int)
    ensures (x + k * MOD16) % MOD16 == x % MOD16
  {
  }

  lemma SumsAgree(x: int, x': int, y: int, y': int)
    requires x % MOD16 == x' % MOD16 && y % MOD16 == y' % MOD16
    ensures (x + y) % MOD16 == (x' + y') % MOD16
    ensures (x - y) % MOD16 == (x' - y') % MOD16
  {
    var i, j := x / MOD16 - x' / MOD16, y / MOD16 - y' / MOD16;
    assert x == x' + i * MOD16 && y == y' + j * MOD16;
    Shifted(x' + y', i + j);
    Shifted(x' - y', i - j);
  }

  lemma RollAArithmetic(a: int, sa: int, d: int)
    requires a % MOD16 == sa % MOD16
    ensures Wrap32(a + d) % MOD16 % MOD16 == (sa + d) % MOD16
  {
    Wrap32Mod16(a + d);
    SumsAgree(a, sa, d, d);
  }

  lemma RollBArithmetic(b: int, sb: int, p: int, a: int, sa: int)
    requires b % MOD16 == sb % MOD16 && a % MOD16 == sa % MOD16
    ensures Wrap32(b - Wrap32(p) + a) % MOD16 % MOD16 == (sb - p + sa) % MOD16
  {
    var wrapped := Wrap32(p);
    Wrap32Mod16(p);
    SumsAgree(b, sb, wrapped, p);
    SumsAgree(b - wrapped, sb - p, a, sa);
    Wrap32Mod16(b - wrapped + a);
  }

  // ----- Signatures -------------------------------------------------------------

  function EffectiveBlockSize(requested: u32): u32 {
    if requested != 0 then requested else DEFAULT_BLOCK_SIZE
  }

  function Min(a: int, b: int): int { if a <= b then a else b }

  /** Where block i starts. */
  function Offset(l: nat, i: nat): nat { i * l }

  function Block(base: Bytes, l: nat, i: nat): Bytes {
    if Offset(l, i) <= |base| then base[Offset(l, i)..Min(Offset(l, i) + l, |base|)] else []
  }

  function SigOfBlock(strong: Bytes -> Strong, block: Bytes): BlockSig {
    BlockSig(Weak(block), strong(block))
  }

  ghost predicate BlocksDescribe(strong: Bytes -> Strong, l: nat, blocks: seq<BlockSig>, base: Bytes) {
    forall i :: 0 <= i < |blocks| ==> blocks[i] == SigOfBlock(strong, Block(base, l, i))
  }

  /** sig describes base: one entry per block, the last one possibly short, and no
      entry past the end. */
  ghost predicate Describes(strong: Bytes -> Strong, sig: Signature, base: Bytes) {
    && sig.blockSize > 0
    && sig.fileSize == |base|
    && (if sig.blocks == [] then base == []
        else Offset(sig.blockSize, |sig.blocks| - 1) < |base| <= Offset(sig.blockSize, |sig.blocks|))
    && BlocksDescribe(strong, sig.blockSize, sig.blocks, base)
  }

  lemma MulSucc(k: int, l: int)
    ensures (k + 1) * l == k * l + l
  {
  }

  lemma BlockAt(base: Bytes, l: nat, i: nat, off: nat)
    requires off == Offset(l, i) < |base|
    ensures Block(base, l, i) == base[off..Min(off + l, |base|)]
    ensures off <= Min(off + l, |base|) <= |base|
  {
  }

  lemma NextBlock(strong: Bytes -> Strong, l: nat, blocks: seq<BlockSig>, base: Bytes, block: Bytes)
    requires BlocksDescribe(strong, l, blocks, base) && block == Block(base, l, |blocks|)
    ensures BlocksDescribe(strong, l, blocks + [SigOfBlock(strong, block)], base)
  {
  }

  lemma NextOffset(l: nat, i: nat)
    ensures Offset(l, 0) == 0 && Offset(l, i + 1) == Offset(l, i) + l
  {
    MulSucc(i, l);
  }

  method SignatureOf(strong: Bytes -> Strong, base: Bytes, requested: u32) returns (sig: Signature)
    requires |base| < MOD64
    ensures sig.blockSize == (if requested == 0 then 2048 else requested)
    ensures Describes(strong, sig, base)
  {
    hide Weak, Block, BlocksDescribe, Offset;
    var l := EffectiveBlockSize(requested);
    var blocks: seq<BlockSig> := [];
    var off: nat := 0;
    NoBlocks(strong, l, base);
    NextOffset(l, 0);
    while off < |base|
      invariant off == Offset(l, |blocks|)
      invariant blocks != [] ==> Offset(l, |blocks| - 1) < |base|
      invariant blocks == [] ==> off == 0
      invariant BlocksDescribe(strong, l, blocks, base)
      decreases |base| - off
    {
      BlockAt(base, l, |blocks|, off);
      var block := base[off..Min(off + l, |base|)];
      var weak := WeakChecksum(block);
      NextBlock(strong, l, blocks, base, block);
      NextOffset(l, |blocks|);
      blocks := blocks + [BlockSig(weak, strong(block))];
      off := off + l;
    }
    sig := Signature(l, |base|, blocks);
  }

  lemma NoBlocks(strong: Bytes -> Strong, l: nat, base: Bytes)
    ensures BlocksDescribe(strong, l, [], base)
  {
  }

  // ----- The reference matcher --------------------------------------------------

  /** One step of the naive left-to-right scan: take a whole base block, or give up
      one target byte. */
  datatype Step = Take(block: nat) | Byte(value: byte)

  /** Block i of the signature matches the target window at pos, on both hashes, and
      is a whole block. */
  ghost predicate Matches(strong: Bytes -> Strong, sig: Signature, target: Bytes, pos: nat, i: nat) {
    && 0 < sig.blockSize
    && pos + sig.blockSize <= |target|
    && i < |sig.blocks|
    && sig.blocks[i] == BlockSig(Weak(target[pos..pos + sig.blockSize]), strong(target[pos..pos + sig.blockSize]))
    && Offset(sig.blockSize, i) + sig.blockSize <= sig.fileSize
  }

  ghost predicate Unmatched(strong: Bytes -> Strong, sig: Signature, target: Bytes, pos: nat) {
    forall i: nat :: !Matches(strong, sig, target, pos, i)
  }

  /** trace is a greedy scan of target[..pos]: it recomputes both hashes at every
      position it stops at, takes a matching block whenever there is one, and gives
      up a byte only when there is none. */
  ghost predicate Greedy(strong: Bytes -> Strong, sig: Signature, target: Bytes, trace: seq<Step>, pos: nat) {
    if trace == [] then pos == 0 else
      var before := trace[..|trace| - 1];
      match trace[|trace| - 1]
      case Take(i) =>
        && sig.blockSize <= pos
        && Matches(strong, sig, target, pos - sig.blockSize, i)
        && Greedy(strong, sig, target, before, pos - sig.blockSize)
      case Byte(x) =>
        && 0 < pos <= |target|
        && x == target[pos - 1]
        && Unmatched(strong, sig, target, pos - 1)
        && Greedy(strong, sig, target, before, pos - 1)
  }

  /** Append a COPY, merging it into a contiguous preceding one. The merged length is
      a 32-bit field and wraps. */
  function PushCopy(ops: seq<DeltaOp>, offset: nat, len: u32): seq<DeltaOp> {
    var n := |ops|;
    if n > 0 && ops[n - 1].Copy? && ops[n - 1].offset + ops[n - 1].len == offset then
      ops[..n - 1] + [Copy(ops[n - 1].offset, Wrap32(ops[n - 1].len + len))]
    else
      ops + [Copy(offset, len)]
  }

  function PushByte(ops: seq<DeltaOp>, x: byte): seq<DeltaOp> {
    var n := |ops|;
    if n > 0 && ops[n - 1].Literal? then
      ops[..n - 1] + [Literal(ops[n - 1].data + [x])]
    else
      ops + [Literal([x])]
  }

  function FlushLiteral(ops: seq<DeltaOp>, run: Bytes): seq<DeltaOp> {
    if run == [] then ops else ops + [Literal(run)]
  }

  /** The instruction stream of a trace: contiguous takes merged into one COPY,
      adjacent bytes into one LITERAL. */
  ghost function Emit(l: u32, trace: seq<Step>): seq<DeltaOp> {
    if trace == [] then [] else
      var ops := Emit(l, trace[..|trace| - 1]);
      match trace[|trace| - 1]
      case Take(i) => PushCopy(ops, Offset(l, i), l)
      case Byte(x) => PushByte(ops, x)
  }

  /** A stream that could not be put in fewer instructions: no COPY goes on where the one before
      it stops, no two literals stand together, and none is empty. */
  ghost predicate Compact(ops: seq<DeltaOp>) {
    && (forall k :: 0 <= k < |ops| && ops[k].Literal? ==> ops[k].data != [])
    && forall k :: 0 < k < |ops| ==> !Joins(ops[k - 1], ops[k])
  }

  predicate Joins(first: DeltaOp, second: DeltaOp) {
    if first.Copy? then second.Copy? && first.offset + first.len == second.offset else second.Literal?
  }

  lemma CompactPush(ops: seq<DeltaOp>, offset: nat, len: u32, x: byte)
    requires Compact(ops)
    ensures Compact(PushCopy(ops, offset, len)) && Compact(PushByte(ops, x))
  {
    var n := |ops|;
    if n > 1 {
      assert !Joins(ops[n - 2], ops[n - 1]);
    }
    forall k | 0 < k < |PushCopy(ops, offset, len)|
      ensures !Joins(PushCopy(ops, offset, len)[k - 1], PushCopy(ops, offset, len)[k])
    {
      assert k < n ==> !Joins(ops[k - 1], ops[k]);
    }
    forall k | 0 < k < |PushByte(ops, x)|
      ensures !Joins(PushByte(ops, x)[k - 1], PushByte(ops, x)[k])
    {
      assert k < n ==> !Joins(ops[k - 1], ops[k]);
    }
  }

  lemma {:induction false} EmitIsCompact(l: u32, trace: seq<Step>)
    ensures Compact(Emit(l, trace))
  {
    if trace != [] {
      var ops := Emit(l, trace[..|trace| - 1]);
      EmitIsCompact(l, trace[..|trace| - 1]);
      match trace[|trace| - 1]
      case Take(i) => CompactPush(ops, Offset(l, i), l, 0);
      case Byte(x) => CompactPush(ops, 0, 0, x);
    }
    hide Compact, PushCopy, PushByte;
  }

  // ----- The scan ---------------------------------------------------------------

  predicate EndsInCopy(ops: seq<DeltaOp>) {
    ops == [] || ops[|ops| - 1].Copy?
  }

  lemma FlushThenByte(ops: seq<DeltaOp>, run: Bytes, x: byte)
    requires EndsInCopy(ops)
    ensures PushByte(FlushLiteral(ops, run), x) == FlushLiteral(ops, run + [x])
  {
    if run != [] {
      assert (ops + [Literal(run)])[..|ops|] == ops;
    } else {
      assert [] + [x] == [x];
    }
  }

  /** The scan gives up byte pos: the pending literal run grows by it. */
  lemma ByteStep(strong: Bytes -> Strong, sig: Signature, target: Bytes, trace: seq<Step>, pos: nat,
                 ops: seq<DeltaOp>, from: nat)
    requires from <= pos < |target|
    requires Greedy(strong, sig, target, trace, pos) && Unmatched(strong, sig, target, pos)
    requires EndsInCopy(ops) && Emit(sig.blockSize, trace) == FlushLiteral(ops, target[from..pos])
    ensures Greedy(strong, sig, target, trace + [Byte(target[pos])], pos + 1)
    ensures Emit(sig.blockSize, trace + [Byte(target[pos])]) == FlushLiteral(ops, target[from..pos + 1])
  {
    assert (trace + [Byte(target[pos])])[..|trace|] == trace;
    FlushThenByte(ops, target[from..pos], target[pos]);
    assert target[from..pos + 1] == target[from..pos] + [target[pos]];
  }

  /** The scan takes block i at pos: the pending run is flushed, then the COPY. */
  lemma TakeStep(strong: Bytes -> Strong, sig: Signature, target: Bytes, trace: seq<Step>, pos: nat, i: nat)
    requires Greedy(strong, sig, target, trace, pos) && Matches(strong, sig, target, pos, i)
    ensures Greedy(strong, sig, target, trace + [Take(i)], pos + sig.blockSize)
    ensures Emit(sig.blockSize, trace + [Take(i)]) == PushCopy(Emit(sig.blockSize, trace), Offset(sig.blockSize, i), sig.blockSize)
    ensures EndsInCopy(Emit(sig.blockSize, trace + [Take(i)]))
    ensures FlushLiteral(Emit(sig.blockSize, trace + [Take(i)]), []) == Emit(sig.blockSize, trace + [Take(i)])
    ensures pos + sig.blockSize <= |target| && 0 < sig.blockSize
  {
    assert (trace + [Take(i)])[..|trace|] == trace;
  }

  /** Where no window fits or no block can match, the rest of the target is literal. */
  lemma {:induction false} TailIsLiteral(strong: Bytes -> Strong, sig: Signature, target: Bytes, trace: seq<Step>, pos: nat,
                      ops: seq<DeltaOp>, from: nat) returns (full: seq<Step>)
    requires from <= pos <= |target|
    requires Greedy(strong, sig, target, trace, pos)
    requires forall q: nat :: pos <= q ==> Unmatched(strong, sig, target, q)
    requires EndsInCopy(ops) && Emit(sig.blockSize, trace) == FlushLiteral(ops, target[from..pos])
    ensures Greedy(strong, sig, target, full, |target|)
    ensures Emit(sig.blockSize, full) == FlushLiteral(ops, target[from..])
    decreases |target| - pos
  {
    if pos == |target| {
      assert target[from..pos] == target[from..];
      full := trace;
    } else {
      ByteStep(strong, sig, target, trace, pos, ops, from);
      full := TailIsLiteral(strong, sig, target, trace + [Byte(target[pos])], pos + 1, ops, from);
    }
  }

  /** The multimap from weak checksum to block index. */
  ghost predicate Indexes(byWeak: map<u32, seq<nat>>, blocks: seq<BlockSig>, n: nat) {
    && n <= |blocks|
    && (forall i :: 0 <= i < n ==> blocks[i].weak in byWeak && i in byWeak[blocks[i].weak])
    && (forall w :: w in byWeak ==> AllOf(byWeak[w], blocks, n, w))
  }

  ghost predicate AllOf(bucket: seq<nat>, blocks: seq<BlockSig>, n: nat, w: u32) {
    n <= |blocks| && forall k :: 0 <= k < |bucket| ==> bucket[k] < n && blocks[bucket[k]].weak == w
  }

  /** Where a multimap puts a new equal key among the old ones is unspecified: any
      position at keeps the index right. */
  lemma IndexOneMore(byWeak: map<u32, seq<nat>>, blocks: seq<BlockSig>, i: nat, bucket: seq<nat>, at: nat, grown: seq<nat>)
    requires i < |blocks| && Indexes(byWeak, blocks, i) && bucket == Bucket(byWeak, blocks[i].weak)
    requires at <= |bucket| && grown == bucket[..at] + [i] + bucket[at..]
    ensures Indexes(byWeak[blocks[i].weak := grown], blocks, i + 1)
  {
    assert AllOf(bucket, blocks, i, blocks[i].weak);
    hide *;
    Inserted(bucket, blocks, i, at);
    IndexGrows(byWeak, blocks, i, grown);
  }

  lemma IndexGrows(byWeak: map<u32, seq<nat>>, blocks: seq<BlockSig>, i: nat, grown: seq<nat>)
    requires i < |blocks| && Indexes(byWeak, blocks, i) && AllOf(grown, blocks, i + 1, blocks[i].weak)
    requires i in grown && forall j :: j in Bucket(byWeak, blocks[i].weak) ==> j in grown
    ensures Indexes(byWeak[blocks[i].weak := grown], blocks, i + 1)
  {
    hide AllOf;
    forall v | v in byWeak
      ensures AllOf(byWeak[v], blocks, i + 1, v)
    {
      StillAllOf(byWeak[v], blocks, i, v);
    }
  }

  lemma StillAllOf(bucket: seq<nat>, blocks: seq<BlockSig>, n: nat, w: u32)
    requires AllOf(bucket, blocks, n, w) && n < |blocks|
    ensures AllOf(bucket, blocks, n + 1, w)
  {
  }

  lemma Inserted(bucket: seq<nat>, blocks: seq<BlockSig>, i: nat, at: nat)
    requires at <= |bucket| && i < |blocks| && AllOf(bucket, blocks, i, blocks[i].weak)
    ensures var grown := bucket[..at] + [i] + bucket[at..];
            AllOf(grown, blocks, i + 1, blocks[i].weak) && forall j :: j in grown <==> j in bucket || j == i
  {
    var grown := bucket[..at] + [i] + bucket[at..];
    assert grown[at] == i;
    assert bucket == bucket[..at] + bucket[at..];
  }

  function Bucket(byWeak: map<u32, seq<nat>>, w: u32): seq<nat> {
    if w in byWeak then byWeak[w] else []
  }

  method IndexByWeak(blocks: seq<BlockSig>) returns (byWeak: map<u32, seq<nat>>)
    ensures Indexes(byWeak, blocks, |blocks|)
  {
    byWeak := map[];
    assert Indexes(byWeak, blocks, 0);
    hide *;
    for i := 0 to |blocks|
      invariant Indexes(byWeak, blocks, i)
    {
      var bucket := Bucket(byWeak, blocks[i].weak);
      var at :| 0 <= at <= |bucket|;
      var grown := bucket[..at] + [i] + bucket[at..];
      IndexOneMore(byWeak, blocks, i, bucket, at, grown);
      byWeak := byWeak[blocks[i].weak := grown];
    }
  }

  /** The first candidate the strong hash confirms, if any candidate matches. */
  method FindMatch(strong: Bytes -> Strong, sig: Signature, target: Bytes, byWeak: map<u32, seq<nat>>,
                   pos: nat, a: u32, b: u32) returns (hit: Option<nat>)
    requires 0 < sig.blockSize && pos + sig.blockSize <= |target|
    requires Tracks(a, b, target[pos..pos + sig.blockSize])
    requires Indexes(byWeak, sig.blocks, |sig.blocks|)
    ensures hit.Some? ==> Matches(strong, sig, target, pos, hit.value)
    ensures hit.None? ==> Unmatched(strong, sig, target, pos)
  {
    hit := None;
    var weak := Pack(a, b);
    PackIsWeak(a, b, target[pos..pos + sig.blockSize]);
    if weak in byWeak {
      var s := strong(target[pos..pos + sig.blockSize]);
      var bucket := byWeak[weak];
      for k := 0 to |bucket|
        invariant forall j :: 0 <= j < k ==> !Matches(strong, sig, target, pos, bucket[j])
      {
        var i := bucket[k];
        assert AllOf(bucket, sig.blocks, |sig.blocks|, weak);
        if sig.blocks[i].strong == s && Offset(sig.blockSize, i) + sig.blockSize <= sig.fileSize {
          hit := Some(i);
          return;
        }
      }
    }
  }

  lemma NothingScanned(strong: Bytes -> Strong, sig: Signature, target: Bytes)
    ensures Greedy(strong, sig, target, [], 0)
    ensures EndsInCopy([]) && Emit(sig.blockSize, []) == FlushLiteral([], target[0..0])
    ensures sig.blockSize == 0 || sig.blocks == [] || |target| < sig.blockSize ==>
              forall q: nat :: Unmatched(strong, sig, target, q)
  {
  }

  lemma NoWindowFits(strong: Bytes -> Strong, sig: Signature, target: Bytes, pos: nat)
    requires |target| < pos + sig.blockSize
    ensures forall q: nat :: pos <= q ==> Unmatched(strong, sig, target, q)
  {
  }

  method InitWindow(target: Bytes, pos: nat, l: u32) returns (a: u32, b: u32)
    requires pos + l <= |target|
    ensures Tracks(a, b, target[pos..pos + l])
  {
    a, b := WindowSums(target, pos, l);
    WrappedSumsTrack(target[pos..pos + l]);
  }

  method Roll(target: Bytes, pos: nat, l: u32, a: u32, b: u32) returns (a': u32, b': u32)
    requires 0 < l && pos + l < |target|
    requires Tracks(a, b, target[pos..pos + l])
    ensures Tracks(a', b', target[pos + 1..pos + 1 + l])
  {
    var out, inn := target[pos], target[pos + l];
    a' := RollA(a, out, inn);
    b' := RollB(b, l, out, a');
    RollTracks(a, b, target[pos..pos + l], inn);
    WindowMoves(target, pos, l);
  }

  lemma WindowMoves(target: Bytes, pos: nat, l: nat)
    requires 0 < l && pos + l < |target|
    ensures target[pos..pos + l][1..] + [target[pos + l]] == target[pos + 1..pos + 1 + l]
  {
    assert target[pos..pos + l][1..] == target[pos + 1..pos + l];
  }

  /** The rolling scan emits exactly what a naive greedy scan emits, with every hash
      recomputed from scratch at every position it visits, as compactly as can be. */
  method ComputeDelta(strong: Bytes -> Strong, sig: Signature, target: Bytes)
    returns (d: Delta, ghost trace: seq<Step>)
    ensures d.outSize == |target|
    ensures Greedy(strong, sig, target, trace, |target|)
    ensures d.ops == Emit(sig.blockSize, trace) && Compact(d.ops)
  {
    hide *;
    var l, n := sig.blockSize, |target|;
    trace := [];
    NothingScanned(strong, sig, target);
    if l == 0 || sig.blocks == [] || n < l {
      d := Delta(n, FlushLiteral([], target));
      assert target[0..] == target;
      trace := TailIsLiteral(strong, sig, target, [], 0, [], 0);
      EmitIsCompact(l, trace);
      return;
    }
    var byWeak := IndexByWeak(sig.blocks);
    var ops: seq<DeltaOp> := [];
    var pos: nat, from: nat := 0, 0;
    var a: u32, b: u32 := InitWindow(target, 0, l);
    while pos + l <= n
      invariant from <= pos <= n
      invariant Greedy(strong, sig, target, trace, pos)
      invariant EndsInCopy(ops) && Emit(l, trace) == FlushLiteral(ops, target[from..pos])
      invariant pos + l <= n ==> Tracks(a, b, target[pos..pos + l])
      decreases n - pos
    {
      var hit := FindMatch(strong, sig, target, byWeak, pos, a, b);
      if hit.Some? {
        TakeStep(strong, sig, target, trace, pos, hit.value);
        trace := trace + [Take(hit.value)];
        ops := PushCopy(FlushLiteral(ops, target[from..pos]), Offset(l, hit.value), l);
        pos := pos + l;
        from := pos;
        assert target[from..pos] == [];
        if pos + l <= n {
          a, b := InitWindow(target, pos, l);
        }
      } else {
        ByteStep(strong, sig, target, trace, pos, ops, from);
        trace := trace + [Byte(target[pos])];
        if pos + l < n {
          a, b := Roll(target, pos, l, a, b);
        }
        pos := pos + 1;
      }
    }
    NoWindowFits(strong, sig, target, pos);
    d := Delta(n, FlushLiteral(ops, target[from..]));
    trace := TailIsLiteral(strong, sig, target, trace, pos, ops, from);
    EmitIsCompact(l, trace);
  }

  // ----- The patcher ------------------------------------------------------------

  /** What the instructions rebuild from base; None when one reaches past its end. */
  function ApplyOps(base: Bytes, ops: seq<DeltaOp>): Option<Bytes> {
    if ops == [] then Some([]) else
      var out := ApplyOps(base, ops[..|ops| - 1]);
      if out.None? then None else
        match ops[|ops| - 1]
        case Copy(offset, len) =>
          if offset + len > |base| then None else Some(out.value + base[offset..offset + len])
        case Literal(data) => Some(out.value + data)
  }

  lemma {:induction false} MalformedPrefix(base: Bytes, ops: seq<DeltaOp>, n: nat)
    requires n <= |ops| && ApplyOps(base, ops[..n]).None?
    ensures ApplyOps(base, ops).None?
  {
    if n == |ops| {
      assert ops[..n] == ops;
    } else {
      assert ops[..|ops| - 1][..n] == ops[..n];
      MalformedPrefix(base, ops[..|ops| - 1], n);
    }
  }

  method ApplyDelta(base: Bytes, delta: Delta) returns (out: Bytes)
    ensures out == (match ApplyOps(base, delta.ops) case Some(rebuilt) => rebuilt case None => [])
  {
    out := [];
    for k := 0 to |delta.ops|
      invariant ApplyOps(base, delta.ops[..k]) == Some(out)
    {
      var op := delta.ops[k];
      assert delta.ops[..k + 1][..k] == delta.ops[..k];
      if op.Copy? {
        if op.offset + op.len > |base| {
          MalformedPrefix(base, delta.ops, k + 1);
          return [];
        }
        out := out + base[op.offset..op.offset + op.len];
      } else {
        out := out + op.data;
      }
    }
    assert delta.ops[..|delta.ops|] == delta.ops;
  }

  function LiteralBytes(ops: seq<DeltaOp>): nat {
    if ops == [] then 0 else
      LiteralBytes(ops[..|ops| - 1]) + (match ops[|ops| - 1] case Copy(_, _) => 0 case Literal(data) => |data|)
  }

  function CopiedBytes(ops: seq<DeltaOp>): nat {
    if ops == [] then 0 else
      CopiedBytes(ops[..|ops| - 1]) + (match ops[|ops| - 1] case Copy(_, len) => len case Literal(_) => 0)
  }

  // ----- What a trace means -----------------------------------------------------

  ghost function StepBytes(base: Bytes, l: u32, s: Step): Bytes {
    match s
    case Take(i) => Block(base, l, i)
    case Byte(x) => [x]
  }

  /** What the trace rebuilds: the blocks it takes and the bytes it gives up, in order. */
  ghost function Rebuilt(base: Bytes, l: u32, trace: seq<Step>): Bytes {
    if trace == [] then [] else
      Rebuilt(base, l, trace[..|trace| - 1]) + StepBytes(base, l, trace[|trace| - 1])
  }

  ghost function Span(l: u32, trace: seq<Step>): nat {
    if trace == [] then 0 else
      Span(l, trace[..|trace| - 1]) + Width(l, trace[|trace| - 1])
  }

  ghost function GivenUp(trace: seq<Step>): nat {
    if trace == [] then 0 else
      GivenUp(trace[..|trace| - 1]) + (if trace[|trace| - 1].Take? then 0 else 1)
  }

  ghost predicate MergeWraps(ops: seq<DeltaOp>, offset: nat, len: u32) {
    var n := |ops|;
    && n > 0 && ops[n - 1].Copy?
    && ops[n - 1].offset + ops[n - 1].len == offset
    && ops[n - 1].len + len >= MOD32
  }

  /** How often merging two contiguous COPYs overflowed the 32-bit length field. */
  ghost function Wraps(l: u32, trace: seq<Step>): nat {
    if trace == [] then 0 else
      var before := trace[..|trace| - 1];
      Wraps(l, before) + (match trace[|trace| - 1]
                          case Take(i) => if MergeWraps(Emit(l, before), Offset(l, i), l) then 1 else 0
                          case Byte(_) => 0)
  }

  /** A block the trace takes lies wholly inside a base of this size. */
  ghost predicate StepFits(size: nat, l: u32, s: Step) {
    s.Take? ==> Offset(l, s.block) + l <= size
  }

  ghost predicate InBounds(base: Bytes, l: u32, trace: seq<Step>) {
    forall k :: 0 <= k < |trace| ==> StepFits(|base|, l, trace[k])
  }

  ghost function Width(l: u32, s: Step): nat {
    if s.Take? then l else 1
  }

  lemma StepBytesFit(base: Bytes, l: u32, s: Step)
    requires StepFits(|base|, l, s)
    ensures |StepBytes(base, l, s)| == Width(l, s)
    ensures s.Take? ==> Offset(l, s.block) + l <= |base| && StepBytes(base, l, s) == base[Offset(l, s.block)..Offset(l, s.block) + l]
  {
  }

  /** Every block the trace takes really is the window it stands for. */
  ghost predicate Faithful(base: Bytes, l: u32, trace: seq<Step>, target: Bytes, pos: nat) {
    if trace == [] then true else
      var s := trace[|trace| - 1];
      var width := Width(l, s);
      && width <= pos <= |target|
      && StepBytes(base, l, s) == target[pos - width..pos]
      && Faithful(base, l, trace[..|trace| - 1], target, pos - width)
  }

  lemma {:induction false} GreedySpan(strong: Bytes -> Strong, sig: Signature, target: Bytes, trace: seq<Step>, pos: nat)
    requires Greedy(strong, sig, target, trace, pos)
    ensures pos == Span(sig.blockSize, trace) && pos <= |target|
    ensures forall k :: 0 <= k < |trace| ==> StepFits(sig.fileSize, sig.blockSize, trace[k])
  {
    if trace != [] {
      var s := trace[|trace| - 1];
      GreedySpan(strong, sig, target, trace[..|trace| - 1], if s.Take? then pos - sig.blockSize else pos - 1);
    }
  }

  lemma ApplySnoc(base: Bytes, ops: seq<DeltaOp>, op: DeltaOp)
    requires ApplyOps(base, ops).Some?
    ensures ApplyOps(base, ops + [op]) ==
            match op
            case Copy(o, k) => if o + k > |base| then None else Some(ApplyOps(base, ops).value + base[o..o + k])
            case Literal(data) => Some(ApplyOps(base, ops).value + data)
  {
    assert (ops + [op])[..|ops|] == ops;
  }

  lemma {:induction false} SplitLast(base: Bytes, ops: seq<DeltaOp>)
    requires ops != [] && ApplyOps(base, ops).Some?
    ensures ApplyOps(base, ops[..|ops| - 1]).Some?
    ensures ops == ops[..|ops| - 1] + [ops[|ops| - 1]]
    ensures ops[|ops| - 1].Copy? ==>
              var Copy(o, k) := ops[|ops| - 1];
              && o + k <= |base|
              && ApplyOps(base, ops).value == ApplyOps(base, ops[..|ops| - 1]).value + base[o..o + k]
    ensures ops[|ops| - 1].Literal? ==>
              ApplyOps(base, ops).value == ApplyOps(base, ops[..|ops| - 1]).value + ops[|ops| - 1].data
  {
    var before, op := ops[..|ops| - 1], ops[|ops| - 1];
    assert ops == before + [op];
    assert ApplyOps(base, before).Some?;
    hide ApplyOps;
    ApplySnoc(base, before, op);
  }

  lemma CopiesJoin(base: Bytes, out: Bytes, o: nat, k: nat, len: nat)
    requires o + k + len <= |base|
    ensures out + base[o..o + k] + base[o + k..o + k + len] == out + base[o..o + (k + len)]
  {
    assert base[o..o + k] + base[o + k..o + k + len] == base[o..o + (k + len)];
  }

  /** The bytes one more COPY adds; a merge that wraps loses 2^32 of them. */
  lemma ApplyPushCopy(base: Bytes, ops: seq<DeltaOp>, offset: nat, len: u32)
    requires ApplyOps(base, ops).Some? && offset + len <= |base|
    ensures var out, out' := ApplyOps(base, ops).value, ApplyOps(base, PushCopy(ops, offset, len));
            && out'.Some?
            && if MergeWraps(ops, offset, len) then |out'.value| == |out| + len - MOD32
               else out'.value == out + base[offset..offset + len]
  {
    hide ApplyOps;
    var n := |ops|;
    if n > 0 && ops[n - 1].Copy? && ops[n - 1].offset + ops[n - 1].len == offset {
      var Copy(o, k) := ops[n - 1];
      SplitLast(base, ops);
      ApplySnoc(base, ops[..n - 1], Copy(o, Wrap32(k + len)));
      if k + len < MOD32 {
        CopiesJoin(base, ApplyOps(base, ops[..n - 1]).value, o, k, len);
      }
    } else {
      ApplySnoc(base, ops, Copy(offset, len));
    }
  }

  lemma ApplyPushByte(base: Bytes, ops: seq<DeltaOp>, x: byte)
    requires ApplyOps(base, ops).Some?
    ensures ApplyOps(base, PushByte(ops, x)) == Some(ApplyOps(base, ops).value + [x])
  {
    hide ApplyOps;
    var n := |ops|;
    if n > 0 && ops[n - 1].Literal? {
      SplitLast(base, ops);
      var data, out := ops[n - 1].data, ApplyOps(base, ops[..n - 1]).value;
      ApplySnoc(base, ops[..n - 1], Literal(data + [x]));
      assert out + (data + [x]) == (out + data) + [x];
    } else {
      ApplySnoc(base, ops, Literal([x]));
    }
  }

  /** Whatever the hashes do, the patch is never malformed, and its output is the
      target's length minus 2^32 for every merge that wrapped. With none, the output
      is the trace's own meaning. */
  lemma {:induction false} PatchMeansTrace(base: Bytes, l: u32, trace: seq<Step>)
    requires InBounds(base, l, trace)
    ensures ApplyOps(base, Emit(l, trace)).Some?
    ensures |ApplyOps(base, Emit(l, trace)).value| + MOD32 * Wraps(l, trace) == Span(l, trace)
    ensures Wraps(l, trace) == 0 ==> ApplyOps(base, Emit(l, trace)).value == Rebuilt(base, l, trace)
  {
    if trace != [] {
      var before, s := trace[..|trace| - 1], trace[|trace| - 1];
      PatchMeansTrace(base, l, before);
      TraceUnfold(base, l, trace);
      assert StepFits(|base|, l, s);
      hide *;
      StepBytesFit(base, l, s);
      match s
      case Take(i) => ApplyPushCopy(base, Emit(l, before), Offset(l, i), l);
      case Byte(x) => ApplyPushByte(base, Emit(l, before), x);
    }
  }

  /** Every reading of a trace, one step at a time. */
  lemma TraceUnfold(base: Bytes, l: u32, trace: seq<Step>)
    requires trace != []
    ensures var before, s := trace[..|trace| - 1], trace[|trace| - 1];
            && Span(l, trace) == Span(l, before) + Width(l, s)
            && Width(l, s) == (if s.Take? then l else 1)
            && Rebuilt(base, l, trace) == Rebuilt(base, l, before) + StepBytes(base, l, s)
            && match s
               case Take(i) =>
                 && Emit(l, trace) == PushCopy(Emit(l, before), Offset(l, i), l)
                 && Wraps(l, trace) == Wraps(l, before) + (if MergeWraps(Emit(l, before), Offset(l, i), l) then 1 else 0)
               case Byte(x) =>
                 && Emit(l, trace) == PushByte(Emit(l, before), x)
                 && Wraps(l, trace) == Wraps(l, before)
                 && StepBytes(base, l, s) == [x]
  {
    hide PushCopy, PushByte, MergeWraps, Block;
  }

  lemma {:induction false} LastCopyIsProduced(base: Bytes, ops: seq<DeltaOp>)
    requires ApplyOps(base, ops).Some? && ops != [] && ops[|ops| - 1].Copy?
    ensures ops[|ops| - 1].len <= |ApplyOps(base, ops).value|
  {
  }

  lemma MergeNeedsProducedBytes(base: Bytes, ops: seq<DeltaOp>, offset: nat, len: u32)
    requires ApplyOps(base, ops).Some? && MergeWraps(ops, offset, len)
    ensures |ApplyOps(base, ops).value| + len >= MOD32
  {
    LastCopyIsProduced(base, ops);
  }

  /** No merge can wrap in a target below 4 GiB. */
  lemma {:induction false} SmallNeverWraps(base: Bytes, l: u32, trace: seq<Step>)
    requires InBounds(base, l, trace) && Span(l, trace) < MOD32
    ensures Wraps(l, trace) == 0
  {
    if trace != [] {
      var before, s := trace[..|trace| - 1], trace[|trace| - 1];
      TraceUnfold(base, l, trace);
      assert InBounds(base, l, before);
      hide *;
      SmallNeverWraps(base, l, before);
      PatchMeansTrace(base, l, before);
      match s
      case Take(i) =>
        if MergeWraps(Emit(l, before), Offset(l, i), l) {
          MergeNeedsProducedBytes(base, Emit(l, before), Offset(l, i), l);
        }
      case Byte(_) =>
    }
  }

  /** Two texts cut at the same place are equal when both halves are. */
  lemma SamePieces(r: Bytes, b: Bytes, t: Bytes, cut: nat)
    requires |r| == cut && |t| == cut + |b|
    ensures r + b == t <==> r == t[..cut] && b == t[cut..]
  {
    assert t == t[..cut] + t[cut..];
    assert (r + b)[..cut] == r && (r + b)[cut..] == b;
  }

  lemma {:induction false} RebuiltIsTarget(base: Bytes, l: u32, trace: seq<Step>, target: Bytes, pos: nat)
    requires InBounds(base, l, trace) && pos == Span(l, trace) <= |target|
    ensures |Rebuilt(base, l, trace)| == pos
    ensures Rebuilt(base, l, trace) == target[..pos] <==> Faithful(base, l, trace, target, pos)
  {
    if trace != [] {
      var before, s := trace[..|trace| - 1], trace[|trace| - 1];
      assert StepFits(|base|, l, s);
      TraceUnfold(base, l, trace);
      var cut := pos - Width(l, s);
      RebuiltIsTarget(base, l, before, target, cut);
      assert Faithful(base, l, trace, target, pos) <==>
             StepBytes(base, l, s) == target[cut..pos] && Faithful(base, l, before, target, cut);
      hide *;
      StepBytesFit(base, l, s);
      SamePieces(Rebuilt(base, l, before), StepBytes(base, l, s), target[..pos], cut);
      assert target[..pos][..cut] == target[..cut];
      assert target[..pos][cut..] == target[cut..pos];
    }
  }

  // ----- End to end -------------------------------------------------------------

  /** A scan against a signature that describes base. An empty base has no blocks. */
  ghost predicate ScanOf(strong: Bytes -> Strong, sig: Signature, base: Bytes, target: Bytes, trace: seq<Step>) {
    && (if base == [] then sig.blocks == [] && sig.fileSize == 0 else Describes(strong, sig, base))
    && Greedy(strong, sig, target, trace, |target|)
  }

  /** The strong hash confuses whole base block i with a different target window. */
  ghost predicate Collides(strong: Bytes -> Strong, l: u32, base: Bytes, target: Bytes, i: nat, pos: nat) {
    && Offset(l, i) + l <= |base| && pos + l <= |target|
    && strong(Block(base, l, i)) == strong(target[pos..pos + l])
    && Block(base, l, i) != target[pos..pos + l]
  }

  ghost predicate NoCollision(strong: Bytes -> Strong, l: u32, base: Bytes, target: Bytes) {
    forall i: nat, pos: nat :: !Collides(strong, l, base, target, i, pos)
  }

  lemma ScanIsInBounds(strong: Bytes -> Strong, sig: Signature, base: Bytes, target: Bytes, trace: seq<Step>)
    requires ScanOf(strong, sig, base, target, trace)
    ensures InBounds(base, sig.blockSize, trace)
    ensures Span(sig.blockSize, trace) == |target|
  {
    GreedySpan(strong, sig, target, trace, |target|);
    assert sig.fileSize == |base|;
  }

  /** Exactly when the delta rebuilds the target, for any strong hash: no merged COPY
      overflowed its 32-bit length, and no taken block was a false match. Either way
      the patcher accepts it, and only overflows change the output's length. */
  lemma {:induction false} RoundTripExactly(strong: Bytes -> Strong, sig: Signature, base: Bytes, target: Bytes, trace: seq<Step>)
    requires ScanOf(strong, sig, base, target, trace)
    ensures var patched := ApplyOps(base, Emit(sig.blockSize, trace));
            && patched.Some?
            && |patched.value| + MOD32 * Wraps(sig.blockSize, trace) == |target|
            && (patched.value == target <==>
                 Wraps(sig.blockSize, trace) == 0 && Faithful(base, sig.blockSize, trace, target, |target|))
  {
    var l := sig.blockSize;
    ScanIsInBounds(strong, sig, base, target, trace);
    PatchMeansTrace(base, l, trace);
    RebuiltIsTarget(base, l, trace, target, |target|);
    assert target[..|target|] == target;
  }

  lemma MatchIsFaithful(strong: Bytes -> Strong, sig: Signature, base: Bytes, target: Bytes, pos: nat, i: nat)
    requires Describes(strong, sig, base) && Matches(strong, sig, target, pos, i)
    requires NoCollision(strong, sig.blockSize, base, target)
    ensures Block(base, sig.blockSize, i) == target[pos..pos + sig.blockSize]
  {
    assert !Collides(strong, sig.blockSize, base, target, i, pos);
    assert sig.blocks[i] == SigOfBlock(strong, Block(base, sig.blockSize, i));
  }

  lemma {:induction false} TakesAreFaithful(strong: Bytes -> Strong, sig: Signature, base: Bytes, target: Bytes,
                                           trace: seq<Step>, pos: nat)
    requires Describes(strong, sig, base) && Greedy(strong, sig, target, trace, pos)
    requires NoCollision(strong, sig.blockSize, base, target)
    ensures Faithful(base, sig.blockSize, trace, target, pos)
  {
    hide Describes, NoCollision, Block, Weak;
    if trace != [] {
      var before := trace[..|trace| - 1];
      GreedySpan(strong, sig, target, trace, pos);
      match trace[|trace| - 1]
      case Take(i) =>
        var q := pos - sig.blockSize;
        TakesAreFaithful(strong, sig, base, target, before, q);
        MatchIsFaithful(strong, sig, base, target, q, i);
      case Byte(_) =>
        TakesAreFaithful(strong, sig, base, target, before, pos - 1);
    }
  }

  lemma {:induction false} NothingToTake(strong: Bytes -> Strong, sig: Signature, base: Bytes, target: Bytes,
                                         trace: seq<Step>, pos: nat)
    requires sig.blocks == [] && Greedy(strong, sig, target, trace, pos)
    ensures Faithful(base, sig.blockSize, trace, target, pos)
  {
    if trace != [] {
      assert trace[|trace| - 1].Byte?;
      NothingToTake(strong, sig, base, target, trace[..|trace| - 1], pos - 1);
    }
  }

  /** The law the module is for, on every base, block size and target below 4 GiB. */
  lemma {:induction false} RoundTrip(strong: Bytes -> Strong, sig: Signature, base: Bytes, target: Bytes, trace: seq<Step>)
    requires ScanOf(strong, sig, base, target, trace)
    requires |target| < MOD32 && NoCollision(strong, sig.blockSize, base, target)
    ensures ApplyOps(base, Emit(sig.blockSize, trace)) == Some(target)
  {
    RoundTripExactly(strong, sig, base, target, trace);
    ScanIsInBounds(strong, sig, base, target, trace);
    SmallNeverWraps(base, sig.blockSize, trace);
    if base == [] {
      NothingToTake(strong, sig, base, target, trace, |target|);
    } else {
      TakesAreFaithful(strong, sig, base, target, trace, |target|);
    }
  }

  /** The round trip does fail at 4 GiB: a base of exactly 2^32 bytes in two blocks,
      scanned against itself, may merge into one COPY whose length reads zero. */
  lemma {:induction false} FourGiBRoundTripFails(strong: Bytes -> Strong, sig: Signature, base: Bytes)
    requires |base| == MOD32 && sig.blockSize == 0x8000_0000 && Describes(strong, sig, base)
    ensures var trace := [Take(0), Take(1)];
            && ScanOf(strong, sig, base, base, trace)
            && Faithful(base, sig.blockSize, trace, base, |base|)
            && ApplyOps(base, Emit(sig.blockSize, trace)) == Some([])
  {
    var l := sig.blockSize;
    TwoBlockScan(strong, sig, base);
    TwoBlocksAreFaithful(base, l);
    MergeToZero(base);
    hide Greedy, Describes, Emit, Faithful, PushCopy, ApplyOps;
  }

  lemma MergeToZero(base: Bytes)
    ensures PushCopy(PushCopy([], 0, 0x8000_0000), 0x8000_0000, 0x8000_0000) == [Copy(0, 0)]
    ensures ApplyOps(base, [Copy(0, 0)]) == Some([])
  {
    assert PushCopy([], 0, 0x8000_0000) == [Copy(0, 0x8000_0000)];
    var none: seq<DeltaOp>, nothing: Bytes := [], [];
    ApplySnoc(base, none, Copy(0, 0));
    assert none + [Copy(0, 0)] == [Copy(0, 0)];
    assert nothing + base[0..0 + 0] == nothing;
  }

  lemma TwoBlockScan(strong: Bytes -> Strong, sig: Signature, base: Bytes)
    requires |base| == sig.blockSize + sig.blockSize && Describes(strong, sig, base)
    ensures var trace, l := [Take(0), Take(1)], sig.blockSize;
            && Greedy(strong, sig, base, trace, |base|)
            && Emit(l, trace) == PushCopy(PushCopy([], 0, l), l, l)
  {
    var l: nat := sig.blockSize;
    assert Offset(l, 0) == 0 && Offset(l, 1) == l;
    assert base[0..l] == Block(base, l, 0) && base[l..l + l] == Block(base, l, 1);
    TrueMatchMatches(strong, sig, base, base, 0, 0);
    TrueMatchMatches(strong, sig, base, base, l, 1);
    NothingScanned(strong, sig, base);
    assert Emit(sig.blockSize, []) == [];
    hide *;
    TakeStep(strong, sig, base, [], 0, 0);
    assert [] + [Take(0)] == [Take(0)] && [Take(0)] + [Take(1)] == [Take(0), Take(1)];
    TakeStep(strong, sig, base, [Take(0)], l, 1);
  }

  lemma TwoBlocksAreFaithful(base: Bytes, l: u32)
    requires |base| == l + l
    ensures Faithful(base, l, [Take(0), Take(1)], base, |base|)
  {
    var trace := [Take(0), Take(1)];
    assert trace[..1] == [Take(0)] && [Take(0)][..0] == [];
    assert Faithful(base, l, [Take(0)], base, l);
  }

  /** The weak filter drops no true match: equal bytes always match. */
  lemma TrueMatchMatches(strong: Bytes -> Strong, sig: Signature, base: Bytes, target: Bytes, pos: nat, i: nat)
    requires Describes(strong, sig, base)
    requires Offset(sig.blockSize, i) + sig.blockSize <= |base| && pos + sig.blockSize <= |target|
    requires Block(base, sig.blockSize, i) == target[pos..pos + sig.blockSize]
    ensures Matches(strong, sig, target, pos, i)
  {
    var l := sig.blockSize;
    if i >= |sig.blocks| {
      ProductGrows(|sig.blocks|, i, l);
    }
    assert sig.blocks[i] == SigOfBlock(strong, Block(base, l, i));
  }

  lemma ProductGrows(m: nat, n: nat, l: nat)
    requires m <= n
    ensures m * l <= n * l
  {
  }

  lemma {:induction false} GreedyPrefix(strong: Bytes -> Strong, sig: Signature, target: Bytes, trace: seq<Step>, pos: nat, j: nat)
    requires Greedy(strong, sig, target, trace, pos) && j <= |trace|
    ensures Greedy(strong, sig, target, trace[..j], Span(sig.blockSize, trace[..j]))
  {
    if j == |trace| {
      assert trace[..j] == trace;
      GreedySpan(strong, sig, target, trace, pos);
    } else {
      var before := trace[..|trace| - 1];
      assert before[..j] == trace[..j];
      GreedyPrefix(strong, sig, target, before, if trace[|trace| - 1].Take? then pos - sig.blockSize else pos - 1, j);
    }
  }

  /** Wherever the scan stops at a window that equals a whole base block, it copies:
      no true match it looks at is missed. */
  lemma {:induction false} EveryTrueMatchIsCopied(strong: Bytes -> Strong, sig: Signature, base: Bytes, target: Bytes,
                               trace: seq<Step>, j: nat, i: nat)
    requires Describes(strong, sig, base) && Greedy(strong, sig, target, trace, |target|) && j < |trace|
    requires Offset(sig.blockSize, i) + sig.blockSize <= |base|
    requires var pos := Span(sig.blockSize, trace[..j]);
             pos + sig.blockSize <= |target| && Block(base, sig.blockSize, i) == target[pos..pos + sig.blockSize]
    ensures trace[j].Take?
  {
    var pos := Span(sig.blockSize, trace[..j]);
    TrueMatchMatches(strong, sig, base, target, pos, i);
    GreedyPrefix(strong, sig, target, trace, |target|, j + 1);
    GreedyPrefix(strong, sig, target, trace, |target|, j);
    var t := trace[..j + 1];
    assert t[..|t| - 1] == trace[..j] && t[|t| - 1] == trace[j];
    if trace[j].Byte? {
      LastByteWasUnmatched(strong, sig, target, t, Span(sig.blockSize, t));
    }
  }

  lemma LastByteWasUnmatched(strong: Bytes -> Strong, sig: Signature, target: Bytes, trace: seq<Step>, pos: nat)
    requires Greedy(strong, sig, target, trace, pos) && trace != [] && trace[|trace| - 1].Byte?
    ensures Unmatched(strong, sig, target, Span(sig.blockSize, trace[..|trace| - 1]))
  {
    GreedySpan(strong, sig, target, trace[..|trace| - 1], pos - 1);
  }

  // ----- Cost -------------------------------------------------------------------

  lemma LiteralSnoc(ops: seq<DeltaOp>, op: DeltaOp)
    ensures LiteralBytes(ops + [op]) == LiteralBytes(ops) + (if op.Literal? then |op.data| else 0)
    ensures CopiedBytes(ops + [op]) == CopiedBytes(ops) + (if op.Copy? then op.len else 0)
  {
    assert (ops + [op])[..|ops|] == ops;
  }

  lemma PushedBytes(ops: seq<DeltaOp>, offset: nat, len: u32, x: byte)
    ensures LiteralBytes(PushCopy(ops, offset, len)) == LiteralBytes(ops)
    ensures CopiedBytes(PushCopy(ops, offset, len)) ==
            CopiedBytes(ops) + len - (if MergeWraps(ops, offset, len) then MOD32 else 0)
    ensures LiteralBytes(PushByte(ops, x)) == LiteralBytes(ops) + 1
    ensures CopiedBytes(PushByte(ops, x)) == CopiedBytes(ops)
  {
    hide LiteralBytes, CopiedBytes;
    LiteralSnoc(ops, Copy(offset, len));
    LiteralSnoc(ops, Literal([x]));
    if ops != [] {
      var before, op := ops[..|ops| - 1], ops[|ops| - 1];
      assert ops == before + [op];
      LiteralSnoc(before, op);
      match op
      case Copy(o, k) => LiteralSnoc(before, Copy(o, Wrap32(k + len)));
      case Literal(data) => LiteralSnoc(before, Literal(data + [x]));
    }
  }

  /** Bytes are conserved: every target byte travels as a literal or is copied, up to
      the 2^32 each wrapped merge loses; the literals are the bytes given up. */
  lemma {:induction false} BytesAreConserved(base: Bytes, l: u32, trace: seq<Step>)
    ensures LiteralBytes(Emit(l, trace)) == GivenUp(trace)
    ensures LiteralBytes(Emit(l, trace)) + CopiedBytes(Emit(l, trace)) + MOD32 * Wraps(l, trace) == Span(l, trace)
  {
    if trace != [] {
      var before, s := trace[..|trace| - 1], trace[|trace| - 1];
      BytesAreConserved(base, l, before);
      TraceUnfold(base, l, trace);
      assert GivenUp(trace) == GivenUp(before) + (if s.Take? then 0 else 1);
      hide *;
      match s
      case Take(i) => PushedBytes(Emit(l, before), Offset(l, i), l, 0);
      case Byte(x) => PushedBytes(Emit(l, before), 0, 0, x);
    }
  }

  lemma SharedWindow(base: Bytes, target: Bytes, shared: nat, q: nat, l: nat)
    requires shared <= |base| && shared <= |target| && base[..shared] == target[..shared] && q + l <= shared
    ensures base[q..q + l] == target[q..q + l]
  {
    assert base[q..q + l] == base[..shared][q..q + l];
    assert target[q..q + l] == target[..shared][q..q + l];
  }

  /** An aligned position in such a prefix has its own block to match. */
  lemma PrefixMatches(strong: Bytes -> Strong, sig: Signature, base: Bytes, target: Bytes, q: nat, m: nat, k: nat)
    requires Describes(strong, sig, base) && q == Offset(sig.blockSize, m) < Offset(sig.blockSize, k)
    requires var shared := Offset(sig.blockSize, k);
             shared <= |base| && shared <= |target| && base[..shared] == target[..shared]
    ensures Matches(strong, sig, target, q, m)
  {
    hide *;
    var l := sig.blockSize;
    WholeBelow(base, l, m, k);
    SharedWindow(base, target, Offset(l, k), q, l);
    TrueMatchMatches(strong, sig, base, target, q, m);
  }

  lemma WholeBelow(base: Bytes, l: nat, m: nat, k: nat)
    requires Offset(l, m) < Offset(l, k) <= |base|
    ensures Offset(l, m) + l <= Offset(l, k)
    ensures Block(base, l, m) == base[Offset(l, m)..Offset(l, m) + l]
  {
    if m >= k {
      ProductGrows(k, m, l);
    } else {
      ProductGrows(m + 1, k, l);
      MulSucc(m, l);
    }
  }

  /** Through a prefix of k whole blocks shared with the base the scan stays aligned
      and gives up nothing. */
  lemma {:induction false} AlignedThroughPrefix(strong: Bytes -> Strong, sig: Signature, base: Bytes, target: Bytes,
                                                trace: seq<Step>, pos: nat, k: nat) returns (m: nat)
    requires Describes(strong, sig, base) && Greedy(strong, sig, target, trace, pos)
    requires var shared := Offset(sig.blockSize, k);
             shared <= |base| && shared <= |target| && base[..shared] == target[..shared]
    ensures pos <= Offset(sig.blockSize, k) ==> GivenUp(trace) == 0 && pos == Offset(sig.blockSize, m) && m <= k
    ensures pos > Offset(sig.blockSize, k) ==> GivenUp(trace) <= pos - Offset(sig.blockSize, k)
  {
    hide Weak, Describes;
    var l := sig.blockSize;
    m := 0;
    if trace != [] {
      var before := trace[..|trace| - 1];
      match trace[|trace| - 1]
      case Take(i) =>
        var m' := AlignedThroughPrefix(strong, sig, base, target, before, pos - l, k);
        MulSucc(m', l);
        m := m' + 1;
      case Byte(_) =>
        var q := pos - 1;
        var m' := AlignedThroughPrefix(strong, sig, base, target, before, q, k);
        if q < Offset(l, k) {
          PrefixMatches(strong, sig, base, target, q, m', k);
          assert false;
        }
        m := m';
    }
  }

  /** The cost of a target that starts like the base: past the shared whole blocks,
      at most one literal byte per byte. */
  lemma {:induction false} SharedPrefixIsFree(strong: Bytes -> Strong, sig: Signature, base: Bytes, target: Bytes, trace: seq<Step>, k: nat)
    requires Describes(strong, sig, base) && Greedy(strong, sig, target, trace, |target|)
    requires var shared := Offset(sig.blockSize, k);
             shared <= |base| && shared <= |target| && base[..shared] == target[..shared]
    ensures LiteralBytes(Emit(sig.blockSize, trace)) <= |target| - Offset(sig.blockSize, k)
  {
    var _ := AlignedThroughPrefix(strong, sig, base, target, trace, |target|, k);
    BytesAreConserved(base, sig.blockSize, trace);
  }

  /** An unchanged file costs exactly its short tail block. */
  lemma UnchangedFileCostsItsTail(strong: Bytes -> Strong, sig: Signature, base: Bytes, trace: seq<Step>)
    requires Describes(strong, sig, base) && Greedy(strong, sig, base, trace, |base|)
    ensures LiteralBytes(Emit(sig.blockSize, trace)) == |base| % sig.blockSize
  {
    var l := sig.blockSize;
    var k, tail := |base| / l, |base| % l;
    DivMod(|base|, l);
    SharedPrefixIsFree(strong, sig, base, base, trace, k);
    BytesAreConserved(base, l, trace);
    GreedySpan(strong, sig, base, trace, |base|);
    hide *;
    var takes := SpanCounts(l, trace);
    SameQuotient(l, k, takes, tail, GivenUp(trace));
  }

  lemma DivMod(n: nat, l: nat)
    requires l > 0
    ensures n == Offset(l, n / l) + n % l
  {
  }

  /** Whole blocks and a remainder determine each other. */
  lemma SameQuotient(l: nat, k: nat, m: nat, r: nat, s: nat)
    requires Offset(l, k) + r == Offset(l, m) + s && r < l && s <= r
    ensures s == r
  {
    if m > k {
      ProductGrows(k + 1, m, l);
      MulSucc(k, l);
    } else if m < k {
      ProductGrows(m + 1, k, l);
      MulSucc(m, l);
    }
  }

  lemma {:induction false} SpanCounts(l: u32, trace: seq<Step>) returns (takes: nat)
    ensures Span(l, trace) == Offset(l, takes) + GivenUp(trace)
  {
    takes := 0;
    if trace != [] {
      takes := SpanCounts(l, trace[..|trace| - 1]);
      if trace[|trace| - 1].Take? {
        MulSucc(takes, l);
        takes := takes + 1;
      }
    }
  }

  /** What the two peers do together: sign the old copy, scan the new one against the
      signature, patch the old copy. Always something comes out, of the target's length unless
      merged copies overflowed, and it is the target exactly when none did and every block
      taken was the right one. */
  method Transfer(strong: Bytes -> Strong, base: Bytes, target: Bytes, requested: u32)
    returns (out: Bytes, ghost sig: Signature, ghost trace: seq<Step>)
    requires |base| < MOD64
    ensures sig.blockSize == EffectiveBlockSize(requested) && ScanOf(strong, sig, base, target, trace)
    ensures |out| + MOD32 * Wraps(sig.blockSize, trace) == |target|
    ensures out == target <==> Wraps(sig.blockSize, trace) == 0 && Faithful(base, sig.blockSize, trace, target, |target|)
    ensures |target| < MOD32 ==> |out| == |target|
    ensures |target| < MOD32 && NoCollision(strong, EffectiveBlockSize(requested), base, target) ==> out == target
  {
    var signed := SignatureOf(strong, base, requested);
    var d;
    d, trace := ComputeDelta(strong, signed, target);
    sig := signed;
    RoundTripExactly(strong, sig, base, target, trace);
    ScanIsInBounds(strong, sig, base, target, trace);
    if |target| < MOD32 {
      SmallNeverWraps(base, sig.blockSize, trace);
      if NoCollision(strong, sig.blockSize, base, target) {
        RoundTrip(strong, sig, base, target, trace);
      }
    }
    hide *;
    out := ApplyDelta(base, d);
  }
}
