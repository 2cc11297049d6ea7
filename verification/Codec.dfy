/** The wire and disk form of manifest patches and delta signatures: what the encoders
    write, what the decoders accept, and that each is the other's inverse. */
module Codec {
  import opened Types
  import opened Serialize
  import opened Manifests
  import opened Order
  import D = Delta

  type Entry = (Path, FileMeta)

  const ENTRY_FIXED_BYTES := 54

  // ----- What the encoders write ------------------------------------------------

  function EncodeMeta(m: FileMeta): (b: Bytes)
    ensures |b| == 52
  {
    Be(m.size, 8) + (Be(ToU64(m.mtime), 8) + (Be(m.mode, 4) + m.hash))
  }

  function EncodeEntry(e: Entry): Bytes {
    EncodeStr16(e.0) + EncodeMeta(e.1)
  }

  function EncodeEntries(es: seq<Entry>): Bytes {
    if es == [] then [] else EncodeEntry(es[0]) + EncodeEntries(es[1..])
  }

  function EncodePaths(ps: seq<Path>): Bytes {
    if ps == [] then [] else EncodeStr16(ps[0]) + EncodePaths(ps[1..])
  }

  function EncodeCount(n: nat): Bytes {
    Be(n % MOD32, 4)
  }

  function EncodePatch(p: ManifestPatch): Bytes {
    EncodeCount(|p.upserts|) + (EncodeEntries(p.upserts) + (EncodeCount(|p.removed|) + EncodePaths(p.removed)))
  }

  function EncodeBlock(b: D.BlockSig): (r: Bytes)
    ensures |r| == 20
  {
    Be(b.weak, 4) + b.strong
  }

  function EncodeBlocks(bs: seq<D.BlockSig>): (r: Bytes)
    ensures |r| == 20 * |bs|
  {
    if bs == [] then [] else EncodeBlock(bs[0]) + EncodeBlocks(bs[1..])
  }

  function EncodeSignature(s: D.Signature): Bytes {
    Be(s.blockSize, 4) + (Be(s.fileSize, 8) + (EncodeCount(|s.blocks|) + EncodeBlocks(s.blocks)))
  }

  // ----- What the decoders read -------------------------------------------------

  function ReadU32(c: Cursor): (u32, Cursor) {
    UIntIsBounded(c, 4);
    PowValues();
    ReadUInt(c, 4)
  }

  function ReadU64(c: Cursor): (u64, Cursor) {
    UIntIsBounded(c, 8);
    PowValues();
    ReadUInt(c, 8)
  }

  function ZeroPad(b: Bytes, n: nat): (r: Bytes)
    ensures |r| == n
    ensures |b| == n ==> r == b
  {
    if |b| == n then b else seq(n, _ => 0)
  }

  function ReadMeta(c: Cursor): (FileMeta, Cursor) {
    var (size, c1) := ReadU64(c);
    var (mtime, c2) := ReadU64(c1);
    var (mode, c3) := ReadU32(c2);
    var (hash, c4) := ReadBytes(c3, 32);
    (FileMeta(size, FromU64(mtime), mode, ZeroPad(hash, 32)), c4)
  }

  /** One entry; refused when truncated or when its path is empty. */
  function ReadEntry(c: Cursor): (Option<Entry>, Cursor) {
    var (path, c1) := ReadStr16(c);
    var (meta, c2) := ReadMeta(c1);
    (if c2.ok && path != [] then Some((path, meta)) else None, c2)
  }

  function ReadEntries(c: Cursor, n: nat): (Option<seq<Entry>>, Cursor)
    decreases n
  {
    if n == 0 then (Some([]), c) else
      var (e, c1) := ReadEntry(c);
      if e.None? then (None, c1) else
        var (es, c2) := ReadEntries(c1, n - 1);
        (if es.None? then None else Some([e.value] + es.value), c2)
  }

  function ReadPath(c: Cursor): (Option<Path>, Cursor) {
    var (path, c1) := ReadStr16(c);
    (if c1.ok && path != [] then Some(path) else None, c1)
  }

  function ReadPaths(c: Cursor, n: nat): (Option<seq<Path>>, Cursor)
    decreases n
  {
    if n == 0 then (Some([]), c) else
      var (p, c1) := ReadPath(c);
      if p.None? then (None, c1) else
        var (ps, c2) := ReadPaths(c1, n - 1);
        (if ps.None? then None else Some([p.value] + ps.value), c2)
  }

  /** Each count is refused up front when the buffer could not hold that many. */
  function DecodePatch(c: Cursor): (Option<ManifestPatch>, Cursor) {
    var (n, c1) := ReadU32(c);
    if !c1.ok || |c1.rest| < n * ENTRY_FIXED_BYTES then (None, c1) else
      var (upserts, c2) := ReadEntries(c1, n);
      if upserts.None? then (None, c2) else
        var (m, c3) := ReadU32(c2);
        if !c3.ok || |c3.rest| < m * 2 then (None, c3) else
          var (removed, c4) := ReadPaths(c3, m);
          if removed.None? then (None, c4) else (Some(ManifestPatch(upserts.value, removed.value)), c4)
  }

  function ReadBlock(c: Cursor): (D.BlockSig, Cursor) {
    var (weak, c1) := ReadU32(c);
    var (strong, c2) := ReadBytes(c1, 16);
    (D.BlockSig(weak, ZeroPad(strong, 16)), c2)
  }

  function ReadBlocks(c: Cursor, n: nat): (seq<D.BlockSig>, Cursor)
    decreases n
  {
    if n == 0 then ([], c) else
      var (b, c1) := ReadBlock(c);
      var (bs, c2) := ReadBlocks(c1, n - 1);
      ([b] + bs, c2)
  }

  function DecodeSignature(c: Cursor): (Option<D.Signature>, Cursor) {
    var (blockSize, c1) := ReadU32(c);
    var (fileSize, c2) := ReadU64(c1);
    var (n, c3) := ReadU32(c2);
    if !c3.ok || |c3.rest| < n * 20 then (None, c3) else
      var (blocks, c4) := ReadBlocks(c3, n);
      (if c4.ok then Some(D.Signature(blockSize, fileSize, blocks)) else None, c4)
  }

  // ----- Decoding what was encoded ----------------------------------------------

  predicate PathFits(p: Path) {
    1 <= |p| < MOD16
  }

  /** A patch whose paths and counts fit their length fields, and names no empty path. */
  ghost predicate Encodable(p: ManifestPatch) {
    && |p.upserts| < MOD32 && |p.removed| < MOD32
    && EntriesFit(p.upserts) && PathsFit(p.removed)
  }

  ghost predicate EntriesFit(es: seq<Entry>) {
    forall i :: 0 <= i < |es| ==> PathFits(es[i].0)
  }

  ghost predicate PathsFit(ps: seq<Path>) {
    forall i :: 0 <= i < |ps| ==> PathFits(ps[i])
  }

  lemma EntriesFitCons(e: Entry, tail: seq<Entry>)
    ensures EntriesFit([e] + tail) <==> PathFits(e.0) && EntriesFit(tail)
  {
    if EntriesFit([e] + tail) {
      assert ([e] + tail)[0] == e;
      assert forall i :: 0 <= i < |tail| ==> ([e] + tail)[i + 1] == tail[i];
    }
  }

  lemma PathsFitCons(p: Path, tail: seq<Path>)
    ensures PathsFit([p] + tail) <==> PathFits(p) && PathsFit(tail)
  {
    if PathsFit([p] + tail) {
      assert ([p] + tail)[0] == p;
      assert forall i :: 0 <= i < |tail| ==> ([p] + tail)[i + 1] == tail[i];
    }
  }

  lemma CountRoundTrip(n: nat, rest: Bytes)
    requires n < MOD32
    ensures ReadU32(Cursor(EncodeCount(n) + rest, true)) == (n, Cursor(rest, true))
  {
    PowValues();
    hide Pow256, Be;
    BeRoundTrip(n, 4, rest);
  }

  lemma U64RoundTrip(v: u64, rest: Bytes)
    ensures ReadU64(Cursor(Be(v, 8) + rest, true)) == (v, Cursor(rest, true))
  {
    PowValues();
    BeRoundTrip(v, 8, rest);
  }

  lemma MetaRoundTrip(m: FileMeta, rest: Bytes)
    ensures ReadMeta(Cursor(EncodeMeta(m) + rest, true)) == (m, Cursor(rest, true))
  {
    hide ReadU32, ReadU64, ReadBytes, Be;
    var d := m.hash + rest;
    var c := Be(m.mode, 4) + d;
    var b := Be(ToU64(m.mtime), 8) + c;
    assert EncodeMeta(m) + rest == Be(m.size, 8) + b;
    U64RoundTrip(m.size, b);
    U64RoundTrip(ToU64(m.mtime), c);
    CountRoundTrip(m.mode, d);
    BytesRoundTrip(m.hash, rest);
  }

  lemma EntryRoundTrip(e: Entry, rest: Bytes)
    requires PathFits(e.0)
    ensures ReadEntry(Cursor(EncodeEntry(e) + rest, true)) == (Some(e), Cursor(rest, true))
  {
    hide ReadMeta, ReadStr16, EncodeMeta, EncodeStr16;
    assert EncodeEntry(e) + rest == EncodeStr16(e.0) + (EncodeMeta(e.1) + rest);
    Str16RoundTrip(e.0, EncodeMeta(e.1) + rest);
    MetaRoundTrip(e.1, rest);
  }

  lemma NothingLeftToRead(c: Cursor)
    ensures ReadEntries(c, 0) == (Some([]), c) && ReadPaths(c, 0) == (Some([]), c)
    ensures EncodeEntries([]) == [] && EncodePaths([]) == []
    ensures EntriesFit([]) && PathsFit([])
  {
  }

  lemma {:induction false} EncodedSizes(es: seq<Entry>)
    ensures |EncodeEntries(es)| >= |es| * ENTRY_FIXED_BYTES
  {
    if es != [] {
      EncodedSizes(es[1..]);
    }
  }

  lemma {:induction false} EncodedPathSizes(ps: seq<Path>)
    ensures |EncodePaths(ps)| >= |ps| * 2
  {
    if ps != [] {
      EncodedPathSizes(ps[1..]);
    }
  }

  lemma EncodeEntriesCons(e: Entry, tail: seq<Entry>)
    ensures EncodeEntries([e] + tail) == EncodeEntry(e) + EncodeEntries(tail)
  {
    assert ([e] + tail)[1..] == tail;
  }

  lemma ReadEntriesCons(c: Cursor, n: nat)
    requires n > 0
    ensures var (head, c1) := ReadEntry(c);
            if head.None? then ReadEntries(c, n) == (None, c1) else
            var (es, c2) := ReadEntries(c1, n - 1);
            ReadEntries(c, n) == (if es.None? then None else Some([head.value] + es.value), c2)
  {
  }

  lemma EncodePathsCons(p: Path, tail: seq<Path>)
    ensures EncodePaths([p] + tail) == EncodeStr16(p) + EncodePaths(tail)
  {
    assert ([p] + tail)[1..] == tail;
  }

  lemma ReadPathsCons(c: Cursor, n: nat)
    requires n > 0
    ensures var (head, c1) := ReadPath(c);
            if head.None? then ReadPaths(c, n) == (None, c1) else
            var (ps, c2) := ReadPaths(c1, n - 1);
            ReadPaths(c, n) == (if ps.None? then None else Some([head.value] + ps.value), c2)
  {
  }

  lemma PathRoundTrip(p: Path, rest: Bytes)
    requires PathFits(p)
    ensures ReadPath(Cursor(EncodeStr16(p) + rest, true)) == (Some(p), Cursor(rest, true))
    ensures |EncodeStr16(p)| > 2
  {
    Str16RoundTrip(p, rest);
  }

  lemma {:induction false} EntriesRoundTrip(es: seq<Entry>, rest: Bytes)
    requires EntriesFit(es)
    ensures ReadEntries(Cursor(EncodeEntries(es) + rest, true), |es|) == (Some(es), Cursor(rest, true))
    ensures |EncodeEntries(es)| >= |es| * ENTRY_FIXED_BYTES
  {
    NothingLeftToRead(Cursor(rest, true));
    EncodedSizes(es);
    hide *;
    if es == [] {
      assert EncodeEntries(es) + rest == rest;
    } else {
      var e, tail := es[0], es[1..];
      assert es == [e] + tail;
      EntriesFitCons(e, tail);
      EncodeEntriesCons(e, tail);
      ReadEntriesCons(Cursor(EncodeEntries(es) + rest, true), |es|);
      EntriesRoundTrip(tail, rest);
      EntryRoundTrip(e, EncodeEntries(tail) + rest);
      assert EncodeEntries(es) + rest == EncodeEntry(e) + (EncodeEntries(tail) + rest);
    }
  }

  lemma {:induction false} PathsRoundTrip(ps: seq<Path>, rest: Bytes)
    requires PathsFit(ps)
    ensures ReadPaths(Cursor(EncodePaths(ps) + rest, true), |ps|) == (Some(ps), Cursor(rest, true))
    ensures |EncodePaths(ps)| >= |ps| * 2
  {
    NothingLeftToRead(Cursor(rest, true));
    EncodedPathSizes(ps);
    hide *;
    if ps == [] {
      assert EncodePaths(ps) + rest == rest;
    } else {
      var p, tail := ps[0], ps[1..];
      assert ps == [p] + tail;
      PathsFitCons(p, tail);
      EncodePathsCons(p, tail);
      ReadPathsCons(Cursor(EncodePaths(ps) + rest, true), |ps|);
      PathsRoundTrip(tail, rest);
      PathRoundTrip(p, EncodePaths(tail) + rest);
      assert EncodePaths(ps) + rest == EncodeStr16(p) + (EncodePaths(tail) + rest);
    }
  }

  lemma EncodedPatchDecodes(p: ManifestPatch, rest: Bytes)
    requires Encodable(p)
    ensures DecodePatch(Cursor(EncodePatch(p) + rest, true)) == (Some(p), Cursor(rest, true))
  {
    hide ReadU32, ReadEntries, ReadPaths, EncodeEntries, EncodePaths, EncodeCount;
    var d := EncodePaths(p.removed) + rest;
    var c := EncodeCount(|p.removed|) + d;
    var b := EncodeEntries(p.upserts) + c;
    assert EncodePatch(p) + rest == EncodeCount(|p.upserts|) + b;
    CountRoundTrip(|p.upserts|, b);
    EntriesRoundTrip(p.upserts, c);
    CountRoundTrip(|p.removed|, d);
    PathsRoundTrip(p.removed, rest);
  }

  // ----- Encoding what was decoded ----------------------------------------------

  lemma AcceptedU32(c: Cursor)
    requires ReadU32(c).1.ok
    ensures c.ok && c.rest == EncodeCount(ReadU32(c).0) + ReadU32(c).1.rest
  {
    hide Be;
    AcceptedUInt(c, 4);
  }

  lemma AcceptedU64(c: Cursor)
    requires ReadU64(c).1.ok
    ensures c.ok && c.rest == Be(ReadU64(c).0, 8) + ReadU64(c).1.rest
  {
    AcceptedUInt(c, 8);
  }

  lemma AcceptedMeta(c: Cursor)
    requires ReadMeta(c).1.ok
    ensures c.ok && c.rest == EncodeMeta(ReadMeta(c).0) + ReadMeta(c).1.rest
  {
    hide ReadU32, ReadU64, ReadBytes, Be;
    var (size, c1) := ReadU64(c);
    var (mtime, c2) := ReadU64(c1);
    var (mode, c3) := ReadU32(c2);
    var (hash, c4) := ReadBytes(c3, 32);
    AcceptedBytes(c3, 32);
    AcceptedU32(c2);
    AcceptedU64(c1);
    AcceptedU64(c);
    assert mode % MOD32 == mode && ToU64(FromU64(mtime)) == mtime;
    assert c.rest == EncodeMeta(ReadMeta(c).0) + c4.rest;
  }

  lemma AcceptedEntry(c: Cursor)
    requires ReadEntry(c).0.Some?
    ensures c.ok && ReadEntry(c).1.ok && PathFits(ReadEntry(c).0.value.0)
    ensures c.rest == EncodeEntry(ReadEntry(c).0.value) + ReadEntry(c).1.rest
  {
    hide ReadStr16, ReadMeta, EncodeMeta, EncodeStr16;
    AcceptedMeta(ReadStr16(c).1);
    AcceptedStr16(c);
    var (e, c2) := ReadEntry(c);
    assert EncodeEntry(e.value) + c2.rest == EncodeStr16(e.value.0) + (EncodeMeta(e.value.1) + c2.rest);
  }

  lemma {:induction false} AcceptedEntries(c: Cursor, n: nat)
    requires c.ok && ReadEntries(c, n).0.Some?
    ensures var (es, c') := ReadEntries(c, n);
            && c'.ok && |es.value| == n
            && EntriesFit(es.value)
            && c.rest == EncodeEntries(es.value) + c'.rest
    decreases n
  {
    NothingLeftToRead(c);
    hide *;
    if n == 0 {
      assert c.rest == EncodeEntries([]) + c.rest;
    } else {
      var c1 := ReadEntry(c).1;
      ReadEntriesCons(c, n);
      var e, es, c2 := ReadEntry(c).0.value, ReadEntries(c1, n - 1).0.value, ReadEntries(c1, n - 1).1;
      EncodeEntriesCons(e, es);
      EntriesFitCons(e, es);
      AcceptedEntry(c);
      AcceptedEntries(c1, n - 1);
      assert EncodeEntries([e] + es) + c2.rest == EncodeEntry(e) + (EncodeEntries(es) + c2.rest);
    }
  }

  lemma AcceptedPath(c: Cursor)
    requires ReadPath(c).0.Some?
    ensures c.ok && ReadPath(c).1.ok && PathFits(ReadPath(c).0.value)
    ensures c.rest == EncodeStr16(ReadPath(c).0.value) + ReadPath(c).1.rest
  {
    AcceptedStr16(c);
  }

  lemma {:induction false} AcceptedPaths(c: Cursor, n: nat)
    requires c.ok && ReadPaths(c, n).0.Some?
    ensures var (ps, c') := ReadPaths(c, n);
            && c'.ok && |ps.value| == n
            && PathsFit(ps.value)
            && c.rest == EncodePaths(ps.value) + c'.rest
    decreases n
  {
    NothingLeftToRead(c);
    hide *;
    if n == 0 {
      assert c.rest == EncodePaths([]) + c.rest;
    } else {
      var c1 := ReadPath(c).1;
      ReadPathsCons(c, n);
      var p, ps, c2 := ReadPath(c).0.value, ReadPaths(c1, n - 1).0.value, ReadPaths(c1, n - 1).1;
      EncodePathsCons(p, ps);
      PathsFitCons(p, ps);
      AcceptedPath(c);
      AcceptedPaths(c1, n - 1);
      assert EncodePaths([p] + ps) + c2.rest == EncodeStr16(p) + (EncodePaths(ps) + c2.rest);
    }
  }

  /** Whatever bytes the decoder accepts are exactly the encoding of what it returns,
      followed by what it left unread. */
  lemma DecodedPatchEncodes(c: Cursor)
    requires DecodePatch(c).0.Some?
    ensures c.ok && DecodePatch(c).1.ok && Encodable(DecodePatch(c).0.value)
    ensures c.rest == EncodePatch(DecodePatch(c).0.value) + DecodePatch(c).1.rest
  {
    hide ReadU32, ReadEntries, ReadPaths, EncodeEntries, EncodePaths, EncodeCount;
    var (n, c1) := ReadU32(c);
    var (upserts, c2) := ReadEntries(c1, n);
    var (m, c3) := ReadU32(c2);
    var (removed, c4) := ReadPaths(c3, m);
    AcceptedU32(c);
    AcceptedEntries(c1, n);
    AcceptedU32(c2);
    AcceptedPaths(c3, m);
    assert c.rest == EncodePatch(ManifestPatch(upserts.value, removed.value)) + c4.rest;
  }

  /** Exactly when a patch survives the wire: encoding then decoding returns it, with
      whatever follows left unread, if and only if it fits the format. */
  lemma PatchRoundTripExactly(p: ManifestPatch, rest: Bytes)
    ensures DecodePatch(Cursor(EncodePatch(p) + rest, true)) == (Some(p), Cursor(rest, true)) <==> Encodable(p)
  {
    var c := Cursor(EncodePatch(p) + rest, true);
    if Encodable(p) {
      EncodedPatchDecodes(p, rest);
    } else if DecodePatch(c).0.Some? {
      DecodedPatchEncodes(c);
    }
  }

  // ----- Signatures -------------------------------------------------------------

  /** The cursor is where it was or further on, never past the end and never back; one that
      has failed stays failed where it is. */
  ghost predicate Advances(c: Cursor, c': Cursor) {
    && (exists k :: 0 <= k <= |c.rest| && c'.rest == c.rest[k..])
    && (!c.ok ==> c' == c)
  }

  lemma AdvancesOn(c: Cursor, c1: Cursor, c2: Cursor)
    requires Advances(c, c1) && Advances(c1, c2)
    ensures Advances(c, c2)
  {
    var k :| 0 <= k <= |c.rest| && c1.rest == c.rest[k..];
    var j :| 0 <= j <= |c1.rest| && c2.rest == c1.rest[j..];
    AdvancedBy(c, c2, k, j);
  }

  lemma AdvancedBy(c: Cursor, c2: Cursor, k: nat, j: nat)
    requires k <= |c.rest| && j <= |c.rest[k..]| && c2.rest == c.rest[k..][j..] && (!c.ok ==> c2 == c)
    ensures Advances(c, c2)
  {
    assert c.rest[k..][j..] == c.rest[k + j..];
  }

  lemma StayingAdvances(c: Cursor)
    ensures Advances(c, c)
  {
    assert c.rest[0..] == c.rest;
  }

  lemma ReadingAdvances(c: Cursor, n: nat)
    ensures Advances(c, ReadBytes(c, n).1) && Advances(c, ReadUInt(c, n).1)
  {
    assert c.rest[0..] == c.rest;
  }

  lemma IntegerAdvances(c: Cursor)
    ensures Advances(c, ReadU32(c).1) && Advances(c, ReadU64(c).1)
  {
    ReadingAdvances(c, 4);
    ReadingAdvances(c, 8);
    hide Advances, ReadUInt;
  }

  lemma Str16Advances(c: Cursor)
    ensures Advances(c, ReadStr16(c).1)
  {
    var (n, c1) := ReadUInt(c, 2);
    ReadingAdvances(c, 2);
    ReadingAdvances(c1, n);
    AdvancesOn(c, c1, ReadBytes(c1, n).1);
  }

  lemma MetaAdvances(c: Cursor)
    ensures Advances(c, ReadMeta(c).1)
  {
    var c1 := ReadU64(c).1;
    var c2 := ReadU64(c1).1;
    var c3 := ReadU32(c2).1;
    IntegerAdvances(c);
    IntegerAdvances(c1);
    IntegerAdvances(c2);
    ReadingAdvances(c3, 32);
    AdvancesOn(c, c1, c2);
    AdvancesOn(c, c2, c3);
    AdvancesOn(c, c3, ReadBytes(c3, 32).1);
    hide Advances, ReadU64, ReadU32, ReadBytes;
  }

  lemma EntryAdvances(c: Cursor)
    ensures Advances(c, ReadEntry(c).1) && Advances(c, ReadPath(c).1)
  {
    Str16Advances(c);
    MetaAdvances(ReadStr16(c).1);
    AdvancesOn(c, ReadStr16(c).1, ReadMeta(ReadStr16(c).1).1);
    hide Advances, ReadStr16, ReadMeta;
  }

  lemma {:induction false} ListsAdvance(c: Cursor, n: nat)
    ensures Advances(c, ReadEntries(c, n).1) && Advances(c, ReadPaths(c, n).1)
    decreases n
  {
    hide *;
    if n == 0 {
      NothingLeftToRead(c);
      StayingAdvances(c);
    } else {
      ReadEntriesCons(c, n);
      ReadPathsCons(c, n);
      EntryAdvances(c);
      var c1, c2 := ReadEntry(c).1, ReadPath(c).1;
      ListsAdvance(c1, n - 1);
      ListsAdvance(c2, n - 1);
      AdvancesOn(c, c1, ReadEntries(c1, n - 1).1);
      AdvancesOn(c, c2, ReadPaths(c2, n - 1).1);
    }
  }

  /** A whole decode, accepted or not, only ever moves the cursor on, and one started on a
      failed cursor fails and leaves it alone. */
  lemma PatchDecoderAdvances(c: Cursor)
    ensures Advances(c, DecodePatch(c).1)
    ensures !c.ok ==> DecodePatch(c).0.None?
  {
    hide Advances, ReadEntries, ReadPaths, ReadU32;
    var (n, c1) := ReadU32(c);
    var c2 := ReadEntries(c1, n).1;
    var (m, c3) := ReadU32(c2);
    IntegerAdvances(c);
    ListsAdvance(c1, n);
    AdvancesOn(c, c1, c2);
    IntegerAdvances(c2);
    AdvancesOn(c, c2, c3);
    ListsAdvance(c3, m);
    AdvancesOn(c, c3, ReadPaths(c3, m).1);
  }

  lemma BlockAdvances(c: Cursor)
    ensures Advances(c, ReadBlock(c).1)
  {
    var c1 := ReadU32(c).1;
    IntegerAdvances(c);
    ReadingAdvances(c1, 16);
    AdvancesOn(c, c1, ReadBytes(c1, 16).1);
    hide Advances, ReadU32, ReadBytes;
  }

  lemma {:induction false} BlocksAdvance(c: Cursor, n: nat)
    ensures Advances(c, ReadBlocks(c, n).1)
    decreases n
  {
    hide *;
    if n == 0 {
      NoBlocks(c);
      StayingAdvances(c);
    } else {
      var c1 := ReadBlock(c).1;
      ReadBlocksCons(c, n, []);
      BlockAdvances(c);
      BlocksAdvance(c1, n - 1);
      AdvancesOn(c, c1, ReadBlocks(c1, n - 1).1);
    }
  }

  lemma SignatureDecoderAdvances(c: Cursor)
    ensures Advances(c, DecodeSignature(c).1)
    ensures !c.ok ==> DecodeSignature(c).0.None?
  {
    hide Advances, ReadBlocks, ReadU32, ReadU64;
    var c1 := ReadU32(c).1;
    var c2 := ReadU64(c1).1;
    var (n, c3) := ReadU32(c2);
    IntegerAdvances(c);
    IntegerAdvances(c1);
    IntegerAdvances(c2);
    AdvancesOn(c, c1, c2);
    AdvancesOn(c, c2, c3);
    BlocksAdvance(c3, n);
    AdvancesOn(c, c3, ReadBlocks(c3, n).1);
  }

  lemma BlockRoundTrip(b: D.BlockSig, rest: Bytes)
    ensures ReadBlock(Cursor(EncodeBlock(b) + rest, true)) == (b, Cursor(rest, true))
  {
    hide ReadU32, ReadBytes, Be;
    assert EncodeBlock(b) + rest == Be(b.weak, 4) + (b.strong + rest);
    CountRoundTrip(b.weak, b.strong + rest);
    BytesRoundTrip(b.strong, rest);
  }

  lemma {:induction false} BlocksRoundTrip(bs: seq<D.BlockSig>, rest: Bytes)
    ensures ReadBlocks(Cursor(EncodeBlocks(bs) + rest, true), |bs|) == (bs, Cursor(rest, true))
  {
    NoBlocks(Cursor(rest, true));
    hide *;
    if bs == [] {
      assert EncodeBlocks(bs) + rest == rest;
    } else {
      var b, tail := bs[0], bs[1..];
      assert bs == [b] + tail;
      EncodeBlocksCons(b, tail);
      ReadBlocksCons(Cursor(EncodeBlocks(bs) + rest, true), |bs|, []);
      BlocksRoundTrip(tail, rest);
      BlockRoundTrip(b, EncodeBlocks(tail) + rest);
      assert EncodeBlocks(bs) + rest == EncodeBlock(b) + (EncodeBlocks(tail) + rest);
    }
  }

  lemma AcceptedBlock(c: Cursor)
    requires ReadBlock(c).1.ok
    ensures c.ok && c.rest == EncodeBlock(ReadBlock(c).0) + ReadBlock(c).1.rest
  {
    hide ReadU32, ReadBytes;
    var (weak, c1) := ReadU32(c);
    AcceptedBytes(c1, 16);
    AcceptedU32(c);
    assert weak % MOD32 == weak;
    assert c.rest == Be(weak, 4) + (ReadBytes(c1, 16).0 + ReadBytes(c1, 16).1.rest);
  }

  lemma {:induction false} AcceptedBlocks(c: Cursor, n: nat)
    requires ReadBlocks(c, n).1.ok
    ensures var (bs, c') := ReadBlocks(c, n);
            c.ok && |bs| == n && c.rest == EncodeBlocks(bs) + c'.rest
    decreases n
  {
    if n == 0 {
      assert c.rest == EncodeBlocks([]) + c.rest;
    } else {
      AcceptedBlocks(ReadBlock(c).1, n - 1);
      AcceptedBlock(c);
      hide ReadBlock, EncodeBlock;
      var b, c1 := ReadBlock(c).0, ReadBlock(c).1;
      var bs, c2 := ReadBlocks(c1, n - 1).0, ReadBlocks(c1, n - 1).1;
      assert ([b] + bs)[1..] == bs;
      assert EncodeBlocks([b] + bs) + c2.rest == EncodeBlock(b) + (EncodeBlocks(bs) + c2.rest);
    }
  }

  lemma DecodedSignatureEncodes(c: Cursor)
    requires DecodeSignature(c).0.Some?
    ensures c.ok && DecodeSignature(c).1.ok && |DecodeSignature(c).0.value.blocks| < MOD32
    ensures c.rest == EncodeSignature(DecodeSignature(c).0.value) + DecodeSignature(c).1.rest
  {
    hide ReadU32, ReadU64, ReadBlocks, EncodeBlocks;
    var (blockSize, c1) := ReadU32(c);
    var (fileSize, c2) := ReadU64(c1);
    var (n, c3) := ReadU32(c2);
    var (blocks, c4) := ReadBlocks(c3, n);
    AcceptedBlocks(c3, n);
    AcceptedU32(c2);
    AcceptedU64(c1);
    AcceptedU32(c);
    assert blockSize % MOD32 == blockSize;
    assert c.rest == EncodeSignature(D.Signature(blockSize, fileSize, blocks)) + c4.rest;
  }

  lemma SignatureRoundTrip(s: D.Signature, rest: Bytes)
    requires |s.blocks| < MOD32
    ensures DecodeSignature(Cursor(EncodeSignature(s) + rest, true)) == (Some(s), Cursor(rest, true))
  {
    hide ReadU32, ReadU64, ReadBlocks, EncodeBlocks, EncodeCount, Be;
    var e := EncodeBlocks(s.blocks) + rest;
    var d := EncodeCount(|s.blocks|) + e;
    var b := Be(s.fileSize, 8) + d;
    assert EncodeSignature(s) + rest == Be(s.blockSize, 4) + b;
    CountIsBe(s.blockSize);
    CountRoundTrip(s.blockSize, b);
    U64RoundTrip(s.fileSize, d);
    CountRoundTrip(|s.blocks|, e);
    BlocksRoundTrip(s.blocks, rest);
    hide EncodeSignature;
  }

  /** The same for signatures: the only thing that can fail to fit is the block count. */
  lemma SignatureRoundTripExactly(s: D.Signature, rest: Bytes)
    ensures DecodeSignature(Cursor(EncodeSignature(s) + rest, true)) == (Some(s), Cursor(rest, true)) <==>
            |s.blocks| < MOD32
  {
    var c := Cursor(EncodeSignature(s) + rest, true);
    if |s.blocks| < MOD32 {
      SignatureRoundTrip(s, rest);
    } else if DecodeSignature(c).0.Some? {
      hide DecodeSignature, EncodeSignature;
      DecodedSignatureEncodes(c);
    }
    hide DecodeSignature, EncodeSignature;
  }

  lemma CountIsBe(v: u32)
    ensures EncodeCount(v) == Be(v, 4)
  {
    hide Be;
  }

  // ----- The encoders and decoders themselves -----------------------------------

  method WriteEntry(w: BinaryWriter, e: Entry)
    modifies w
    ensures w.buf == old(w.buf) + EncodeEntry(e)
  {
    w.Str16(e.0);
    w.U64(e.1.size);
    w.I64(e.1.mtime);
    w.U32(e.1.mode);
    w.Raw(e.1.hash);
    hide *;
  }

  lemma {:induction false} EncodeEntriesSnoc(es: seq<Entry>, e: Entry)
    ensures EncodeEntries(es + [e]) == EncodeEntries(es) + EncodeEntry(e)
  {
    assert EncodeEntries([]) == [];
    hide *;
    if es == [] {
      EncodeEntriesCons(e, []);
      assert es + [e] == [e] + [];
      assert EncodeEntry(e) + [] == [] + EncodeEntry(e);
    } else {
      var head, tail := es[0], es[1..];
      EncodeEntriesSnoc(tail, e);
      EncodeEntriesCons(head, tail);
      EncodeEntriesCons(head, tail + [e]);
      assert es == [head] + tail && es + [e] == [head] + (tail + [e]);
      assert EncodeEntry(head) + (EncodeEntries(tail) + EncodeEntry(e)) == EncodeEntry(head) + EncodeEntries(tail) + EncodeEntry(e);
    }
  }

  lemma {:induction false} EncodePathsSnoc(ps: seq<Path>, p: Path)
    ensures EncodePaths(ps + [p]) == EncodePaths(ps) + EncodeStr16(p)
  {
    if ps == [] {
      EncodePathsCons(p, []);
      assert [] + [p] == [p] + [];
    } else {
      EncodePathsSnoc(ps[1..], p);
      EncodePathsCons(ps[0], ps[1..]);
      EncodePathsCons(ps[0], ps[1..] + [p]);
      assert ps == [ps[0]] + ps[1..] && ps + [p] == [ps[0]] + (ps[1..] + [p]);
      hide EncodeStr16, EncodePaths;
      assert EncodeStr16(ps[0]) + (EncodePaths(ps[1..]) + EncodeStr16(p)) ==
             EncodeStr16(ps[0]) + EncodePaths(ps[1..]) + EncodeStr16(p);
    }
  }

  method WriteEntries(w: BinaryWriter, es: seq<Entry>)
    modifies w
    ensures w.buf == old(w.buf) + EncodeEntries(es)
  {
    NothingLeftToRead(Cursor([], true));
    hide *;
    for i := 0 to |es|
      invariant w.buf == old(w.buf) + EncodeEntries(es[..i])
    {
      WriteEntry(w, es[i]);
      EncodeEntriesSnoc(es[..i], es[i]);
      assert es[..i + 1] == es[..i] + [es[i]];
    }
    assert es[..|es|] == es;
  }

  method WritePaths(w: BinaryWriter, ps: seq<Path>)
    modifies w
    ensures w.buf == old(w.buf) + EncodePaths(ps)
  {
    NothingLeftToRead(Cursor([], true));
    hide *;
    for i := 0 to |ps|
      invariant w.buf == old(w.buf) + EncodePaths(ps[..i])
    {
      w.Str16(ps[i]);
      EncodePathsSnoc(ps[..i], ps[i]);
      assert ps[..i + 1] == ps[..i] + [ps[i]];
    }
    assert ps[..|ps|] == ps;
  }

  method WritePatch(w: BinaryWriter, p: ManifestPatch)
    modifies w
    ensures w.buf == old(w.buf) + EncodePatch(p)
  {
    hide EncodeEntries, EncodePaths, EncodePatch, Be;
    w.U32(|p.upserts| % MOD32);
    WriteEntries(w, p.upserts);
    w.U32(|p.removed| % MOD32);
    WritePaths(w, p.removed);
    PatchLayout(old(w.buf), p);
  }

  lemma PatchLayout(buf: Bytes, p: ManifestPatch)
    ensures buf + EncodeCount(|p.upserts|) + EncodeEntries(p.upserts) + EncodeCount(|p.removed|) + EncodePaths(p.removed) ==
            buf + EncodePatch(p)
  {
    hide EncodeCount, EncodeEntries, EncodePaths;
  }

  method ReadMetaFrom(r: BinaryReader) returns (m: FileMeta)
    requires r.Valid()
    modifies r
    ensures r.Valid() && (m, r.View()) == ReadMeta(old(r.View()))
  {
    var size := r.U64();
    var mtime := r.U64();
    var mode := r.U32();
    var hash := r.Chunk(32);
    m := FileMeta(size, FromU64(mtime), mode, ZeroPad(hash, 32));
  }

  method ReadEntryFrom(r: BinaryReader) returns (e: Option<Entry>)
    requires r.Valid()
    modifies r
    ensures r.Valid() && (e, r.View()) == ReadEntry(old(r.View()))
  {
    hide ReadStr16, ReadMeta;
    var path := r.Str16();
    var meta := ReadMetaFrom(r);
    e := if r.ok && path != [] then Some((path, meta)) else None;
  }

  /** What a decode loop still to run would make of the items it already holds. */
  ghost function Resume<T>(done: seq<T>, todo: (Option<seq<T>>, Cursor)): (Option<seq<T>>, Cursor) {
    (if todo.0.None? then None else Some(done + todo.0.value), todo.1)
  }

  lemma ResumeOneMore<T>(done: seq<T>, x: T, todo: (Option<seq<T>>, Cursor))
    ensures Resume(done + [x], todo) == Resume(done, (if todo.0.None? then None else Some([x] + todo.0.value), todo.1))
  {
    if todo.0.Some? {
      assert done + [x] + todo.0.value == done + ([x] + todo.0.value);
    }
  }

  lemma ResumeEnds<T>(done: seq<T>, todo: (Option<seq<T>>, Cursor))
    ensures Resume([], todo) == todo
    ensures todo.0 == Some([]) ==> Resume(done, todo) == (Some(done), todo.1)
    ensures todo.0 == None ==> Resume(done, todo) == todo
  {
    if todo.0.Some? {
      assert [] + todo.0.value == todo.0.value;
      assert done + [] == done;
    }
  }

  method ReadEntriesFrom(r: BinaryReader, n: nat) returns (es: Option<seq<Entry>>)
    requires r.Valid()
    modifies r
    ensures r.Valid() && (es, r.View()) == ReadEntries(old(r.View()), n)
  {
    hide *;
    var done: seq<Entry> := [];
    ResumeEnds(done, ReadEntries(r.View(), n));
    for i := 0 to n
      invariant r.Valid()
      invariant Resume(done, ReadEntries(r.View(), n - i)) == ReadEntries(old(r.View()), n)
    {
      ReadEntriesCons(r.View(), n - i);
      ghost var before := r.View();
      var e := ReadEntryFrom(r);
      if e.None? {
        ResumeEnds(done, ReadEntries(before, n - i));
        return None;
      }
      ResumeOneMore(done, e.value, ReadEntries(r.View(), n - i - 1));
      done := done + [e.value];
    }
    NothingLeftToRead(r.View());
    ResumeEnds(done, ReadEntries(r.View(), 0));
    es := Some(done);
  }

  method ReadPathsFrom(r: BinaryReader, n: nat) returns (ps: Option<seq<Path>>)
    requires r.Valid()
    modifies r
    ensures r.Valid() && (ps, r.View()) == ReadPaths(old(r.View()), n)
  {
    hide ReadStr16, ReadPaths, Resume;
    var done: seq<Path> := [];
    ResumeEnds(done, ReadPaths(r.View(), n));
    for i := 0 to n
      invariant r.Valid()
      invariant Resume(done, ReadPaths(r.View(), n - i)) == ReadPaths(old(r.View()), n)
    {
      ReadPathsCons(r.View(), n - i);
      ghost var before := r.View();
      var p := r.Str16();
      if !r.ok || p == [] {
        ResumeEnds(done, ReadPaths(before, n - i));
        return None;
      }
      ResumeOneMore(done, p, ReadPaths(r.View(), n - i - 1));
      done := done + [p];
    }
    NothingLeftToRead(r.View());
    ResumeEnds(done, ReadPaths(r.View(), 0));
    ps := Some(done);
  }

  method ReadPatchFrom(r: BinaryReader) returns (p: Option<ManifestPatch>)
    requires r.Valid()
    modifies r
    ensures r.Valid() && (p, r.View()) == DecodePatch(old(r.View()))
  {
    hide ReadEntries, ReadPaths, ReadUInt;
    var n: nat := r.U32();
    if !r.ok || r.Remaining() < n * ENTRY_FIXED_BYTES {
      return None;
    }
    var upserts := ReadEntriesFrom(r, n);
    if upserts.None? {
      return None;
    }
    var m: nat := r.U32();
    if !r.ok || r.Remaining() < m * 2 {
      return None;
    }
    var removed := ReadPathsFrom(r, m);
    p := if removed.None? then None else Some(ManifestPatch(upserts.value, removed.value));
  }

  lemma EncodeBlocksCons(b: D.BlockSig, tail: seq<D.BlockSig>)
    ensures EncodeBlocks([b] + tail) == EncodeBlock(b) + EncodeBlocks(tail)
  {
    assert ([b] + tail)[1..] == tail;
  }

  lemma {:induction false} EncodeBlocksSnoc(bs: seq<D.BlockSig>, b: D.BlockSig)
    ensures EncodeBlocks(bs + [b]) == EncodeBlocks(bs) + EncodeBlock(b)
  {
    if bs == [] {
      EncodeBlocksCons(b, []);
      assert [] + [b] == [b] + [];
    } else {
      EncodeBlocksSnoc(bs[1..], b);
      EncodeBlocksCons(bs[0], bs[1..]);
      EncodeBlocksCons(bs[0], bs[1..] + [b]);
      assert bs == [bs[0]] + bs[1..] && bs + [b] == [bs[0]] + (bs[1..] + [b]);
      hide EncodeBlock, EncodeBlocks;
      assert EncodeBlock(bs[0]) + (EncodeBlocks(bs[1..]) + EncodeBlock(b)) ==
             EncodeBlock(bs[0]) + EncodeBlocks(bs[1..]) + EncodeBlock(b);
    }
  }

  lemma NoBlocks(c: Cursor)
    ensures EncodeBlocks([]) == [] && ReadBlocks(c, 0) == ([], c)
  {
  }

  lemma SignatureLayout(buf: Bytes, s: D.Signature)
    ensures buf + Be(s.blockSize, 4) + Be(s.fileSize, 8) + EncodeCount(|s.blocks|) + EncodeBlocks(s.blocks) == buf + EncodeSignature(s)
  {
    hide Be, EncodeCount, EncodeBlocks;
  }

  method WriteBlock(w: BinaryWriter, b: D.BlockSig)
    modifies w
    ensures w.buf == old(w.buf) + EncodeBlock(b)
  {
    w.U32(b.weak);
    w.Raw(b.strong);
    assert old(w.buf) + Be(b.weak, 4) + b.strong == old(w.buf) + (Be(b.weak, 4) + b.strong);
  }

  lemma OneMoreBlock(bs: seq<D.BlockSig>, i: nat)
    requires i < |bs|
    ensures EncodeBlocks(bs[..i + 1]) == EncodeBlocks(bs[..i]) + EncodeBlock(bs[i])
  {
    EncodeBlocksSnoc(bs[..i], bs[i]);
    assert bs[..i + 1] == bs[..i] + [bs[i]];
  }

  method WriteBlocks(w: BinaryWriter, bs: seq<D.BlockSig>)
    modifies w
    ensures w.buf == old(w.buf) + EncodeBlocks(bs)
  {
    NoBlocks(Cursor([], true));
    hide *;
    for i := 0 to |bs|
      invariant w.buf == old(w.buf) + EncodeBlocks(bs[..i])
    {
      OneMoreBlock(bs, i);
      WriteBlock(w, bs[i]);
      assert old(w.buf) + EncodeBlocks(bs[..i]) + EncodeBlock(bs[i]) == old(w.buf) + (EncodeBlocks(bs[..i]) + EncodeBlock(bs[i]));
    }
    assert bs[..|bs|] == bs;
  }

  method WriteSignature(w: BinaryWriter, s: D.Signature)
    modifies w
    ensures w.buf == old(w.buf) + EncodeSignature(s)
  {
    CountFits(|s.blocks|);
    hide *;
    w.U32(s.blockSize);
    w.U64(s.fileSize);
    w.U32(|s.blocks| % MOD32);
    WriteBlocks(w, s.blocks);
    SignatureLayout(old(w.buf), s);
  }

  lemma CountFits(n: nat)
    ensures 0 <= n % MOD32 < 0x1_0000_0000
    ensures Be(n % MOD32, 4) == EncodeCount(n)
  {
    hide Be;
  }

  lemma ReadBlocksCons(c: Cursor, n: nat, done: seq<D.BlockSig>)
    requires n > 0
    ensures var (b, c1) := ReadBlock(c);
            var (bs, c2) := ReadBlocks(c1, n - 1);
            ReadBlocks(c, n) == ([b] + bs, c2) && done + ReadBlocks(c, n).0 == done + [b] + bs
  {
  }

  method ReadSignatureFrom(r: BinaryReader) returns (s: Option<D.Signature>)
    requires r.Valid()
    modifies r
    ensures r.Valid() && (s, r.View()) == DecodeSignature(old(r.View()))
  {
    var blockSize := r.U32();
    var fileSize := r.U64();
    var n: nat := r.U32();
    if !r.ok || r.Remaining() < n * 20 {
      return None;
    }
    var blocks: seq<D.BlockSig> := [];
    ghost var c := r.View();
    hide ReadBlocks, ReadUInt, ReadBytes;
    for i := 0 to n
      invariant r.Valid()
      invariant blocks + ReadBlocks(r.View(), n - i).0 == ReadBlocks(c, n).0
      invariant ReadBlocks(r.View(), n - i).1 == ReadBlocks(c, n).1
    {
      ReadBlocksCons(r.View(), n - i, blocks);
      var weak := r.U32();
      var strong := r.Chunk(16);
      blocks := blocks + [D.BlockSig(weak, ZeroPad(strong, 16))];
    }
    NoBlocks(r.View());
    assert blocks + [] == blocks;
    s := if r.ok then Some(D.Signature(blockSize, fileSize, blocks)) else None;
  }

  // ----- Whole manifests: the persisted baseline --------------------------------

  /** A tree's entries in iteration order. */
  function EntriesOf(t: Tree): seq<Entry> {
    var keys := Listing(t.Keys);
    seq(|keys|, i requires 0 <= i < |keys| => assert keys[i] in keys; (keys[i], t[keys[i]]))
  }

  function EncodeManifest(t: Tree): Bytes {
    EncodeCount(|t|) + EncodeEntries(EntriesOf(t))
  }

  /** Inserting without overwriting: of two entries for one path the first stays. */
  function Emplace(t: Tree, es: seq<Entry>): Tree
    decreases es
  {
    if es == [] then t else
      Emplace(if es[0].0 in t then t else t[es[0].0 := es[0].1], es[1..])
  }

  function DecodeManifest(c: Cursor): (Option<Tree>, Cursor) {
    var (n, c1) := ReadU32(c);
    var (es, c2) := ReadEntries(c1, n);
    (if es.None? || !c2.ok then None else Some(Emplace(map[], es.value)), c2)
  }

  lemma FirstKey(es: seq<Entry>)
    requires es != []
    ensures Keys(es) == [es[0].0] + Keys(es[1..])
    ensures Sorted(Keys(es)) ==> Sorted(Keys(es[1..])) && forall i :: 0 < i < |es| ==> es[i].0 != es[0].0
  {
    assert Keys(es) == [es[0].0] + Keys(es[1..]);
    if Sorted(Keys(es)) {
      SortedHasNoDuplicates(Keys(es));
      assert forall i :: 0 <= i < |es| ==> Keys(es)[i] == es[i].0;
      assert Keys(es)[1..] == Keys(es[1..]);
    }
  }

  lemma {:induction false} EmplaceFinds(t: Tree, es: seq<Entry>, p: Path)
    decreases es
    ensures p in t ==> Find(Emplace(t, es), p) == Find(t, p)
    ensures p !in t && p !in Keys(es) ==> p !in Emplace(t, es)
    ensures Sorted(Keys(es)) ==>
              forall i :: 0 <= i < |es| && es[i].0 == p && p !in t ==> Find(Emplace(t, es), p) == Some(es[i].1)
  {
    if es != [] {
      var t' := if es[0].0 in t then t else t[es[0].0 := es[0].1];
      EmplaceFinds(t', es[1..], p);
      FirstKey(es);
      hide Sorted, Keys;
      assert forall i :: 0 < i < |es| ==> es[1..][i - 1] == es[i];
    }
  }

  lemma ListedEntries(t: Tree)
    ensures Keys(EntriesOf(t)) == Listing(t.Keys) && |EntriesOf(t)| == |t|
  {
    assert Keys(EntriesOf(t)) == Listing(t.Keys);
    assert Elements(Listing(t.Keys)) == t.Keys;
    ElementsCount(Listing(t.Keys));
  }

  lemma ListingLoads(t: Tree)
    requires forall p :: p in t ==> PathFits(p)
    ensures EntriesFit(EntriesOf(t)) && |EntriesOf(t)| == |t| && Emplace(map[], EntriesOf(t)) == t
  {
    var es := EntriesOf(t);
    ListedEntries(t);
    assert forall i :: 0 <= i < |es| ==> Keys(es)[i] == es[i].0;
    var loaded := Emplace(map[], es);
    forall p
      ensures Find(loaded, p) == Find(t, p)
    {
      EmplaceFinds(map[], es, p);
      if p in t {
        var i :| 0 <= i < |es| && Keys(es)[i] == p;
      }
    }
    hide Emplace, EntriesOf;
    SameTree(loaded, t);
  }

  lemma SavedManifestLoads(t: Tree, rest: Bytes)
    requires |t| < MOD32 && forall p :: p in t ==> PathFits(p)
    ensures DecodeManifest(Cursor(EncodeManifest(t) + rest, true)) == (Some(t), Cursor(rest, true))
  {
    var es := EntriesOf(t);
    ListingLoads(t);
    hide ReadEntries, ReadU32, EncodeEntries, EncodeCount, EntriesOf, Emplace, EntriesFit;
    assert EncodeManifest(t) + rest == EncodeCount(|t|) + (EncodeEntries(es) + rest);
    CountRoundTrip(|t|, EncodeEntries(es) + rest);
    EntriesRoundTrip(es, rest);
  }

  lemma {:induction false} EmplaceIsSmall(t: Tree, es: seq<Entry>)
    ensures |Emplace(t, es)| <= |t| + |es|
    decreases es
  {
    if es != [] {
      var t' := if es[0].0 in t then t else t[es[0].0 := es[0].1];
      assert es[0].0 !in t ==> |t'| == |t| + 1;
      EmplaceIsSmall(t', es[1..]);
    }
  }

  /** Whatever bytes load as a manifest, its paths and its size fit the format. */
  lemma LoadedManifestFits(c: Cursor)
    requires DecodeManifest(c).0.Some?
    ensures var t := DecodeManifest(c).0.value;
            |t| < MOD32 && forall p :: p in t ==> PathFits(p)
  {
    var (n, c1) := ReadU32(c);
    var (es, c2) := ReadEntries(c1, n);
    ListsAdvance(c1, n);
    FailedStays(c1, c2);
    AcceptedEntries(c1, n);
    EmplaceIsSmall(map[], es.value);
    var t := Emplace(map[], es.value);
    forall p | p in t
      ensures PathFits(p)
    {
      EmplaceFinds(map[], es.value, p);
      var i :| 0 <= i < |Keys(es.value)| && Keys(es.value)[i] == p;
      assert es.value[i].0 == p;
    }
    hide ReadEntries, ReadU32, EncodeEntries, Emplace, Advances;
  }

  lemma FailedStays(c: Cursor, c': Cursor)
    requires Advances(c, c')
    ensures c'.ok ==> c.ok
  {
  }

  /** Exactly when a saved baseline loads back as the manifest it was, with what follows left
      unread: its paths are 1 to 65535 bytes and its entries fewer than 2^32. */
  lemma SavedManifestLoadsExactly(t: Tree, rest: Bytes)
    ensures DecodeManifest(Cursor(EncodeManifest(t) + rest, true)) == (Some(t), Cursor(rest, true)) <==>
            |t| < MOD32 && forall p :: p in t ==> PathFits(p)
  {
    var c := Cursor(EncodeManifest(t) + rest, true);
    if |t| < MOD32 && forall p :: p in t ==> PathFits(p) {
      SavedManifestLoads(t, rest);
    } else if DecodeManifest(c).0.Some? {
      LoadedManifestFits(c);
    }
    hide DecodeManifest, EncodeManifest, PathFits;
  }

  // ----- Where each field stands ------------------------------------------------

  /** An entry on the wire: two bytes of length and the path, then size, mtime in two's
      complement, mode and hash. */
  lemma EntryLayout(e: Entry)
    requires |e.0| < MOD16
    ensures var b, n := EncodeEntry(e), |e.0|;
            && |b| == n + 54
            && FromBe(b[..2]) == n && b[2..n + 2] == e.0
            && FromBe(b[n + 2..n + 10]) == e.1.size
            && FromBe(b[n + 10..n + 18]) == e.1.mtime + (if e.1.mtime < 0 then MOD64 else 0)
            && FromBe(b[n + 18..n + 22]) == e.1.mode && b[n + 22..] == e.1.hash
  {
    hide *;
    var n, m := |e.0|, e.1;
    EntryFields(e);
    FieldsApart(Be(n, 2), e.0, Be(m.size, 8), Be(ToU64(m.mtime), 8), Be(m.mode, 4), m.hash);
    NumbersReadBack(n, m);
  }

  lemma EntryFields(e: Entry)
    requires |e.0| < MOD16
    ensures EncodeEntry(e) == Be(|e.0|, 2) + e.0 + (Be(e.1.size, 8) + (Be(ToU64(e.1.mtime), 8) + (Be(e.1.mode, 4) + e.1.hash)))
  {
    assert |e.0| % MOD16 == |e.0|;
    hide Be, ToU64;
  }

  lemma NumbersReadBack(n: nat, m: FileMeta)
    requires n < MOD16
    ensures FromBe(Be(n, 2)) == n && FromBe(Be(m.size, 8)) == m.size && FromBe(Be(m.mode, 4)) == m.mode
    ensures FromBe(Be(ToU64(m.mtime), 8)) == m.mtime + (if m.mtime < 0 then MOD64 else 0)
  {
    PowValues();
    hide Be, FromBe;
    FromBeOfBe(n, 2);
    FromBeOfBe(m.size, 8);
    FromBeOfBe(ToU64(m.mtime), 8);
    FromBeOfBe(m.mode, 4);
  }

  lemma FieldsApart(len: Bytes, path: Bytes, size: Bytes, mtime: Bytes, mode: Bytes, hash: Bytes)
    requires |len| == 2 && |size| == |mtime| == 8 && |mode| == 4
    ensures var b, n := len + path + (size + (mtime + (mode + hash))), |path|;
            && |b| == n + 22 + |hash| && b[..2] == len && b[2..n + 2] == path && b[n + 2..n + 10] == size
            && b[n + 10..n + 18] == mtime && b[n + 18..n + 22] == mode && b[n + 22..] == hash
  {
    var b, n, meta := len + path + (size + (mtime + (mode + hash))), |path|, size + (mtime + (mode + hash));
    assert b[n + 2..] == meta && b[..n + 2] == len + path;
    assert meta[8..] == mtime + (mode + hash) && meta[16..] == mode + hash;
    assert b[n + 2..n + 10] == meta[..8] && b[n + 10..n + 18] == meta[8..16] && b[n + 18..n + 22] == meta[16..20];
    assert b[n + 22..] == meta[20..];
  }

  lemma OneCounted()
    ensures EncodeCount(0) == [0, 0, 0, 0] && EncodeCount(1) == [0, 0, 0, 1]
  {
    assert Be(0, 0) == [] && Be(0, 1) == [0] && Be(0, 2) == [0, 0] && Be(0, 3) == [0, 0, 0];
  }

  /** A patch on the wire: what it sets, counted, and then what it removes, counted. */
  lemma OneOfEach(e: Entry, p: Path)
    ensures EncodePatch(ManifestPatch([e], [p])) == [0, 0, 0, 1] + EncodeEntry(e) + [0, 0, 0, 1] + EncodeStr16(p)
  {
    OneCounted();
    assert [e] + [] == [e] && [p] + [] == [p];
    EncodeEntriesCons(e, []);
    EncodePathsCons(p, []);
    assert EncodeEntries([]) == [] && EncodePaths([]) == [];
    hide EncodeCount, EncodeEntry, EncodeStr16, EncodeEntries, EncodePaths;
  }

  /** A signature on the wire: block size, file size, count, and twenty bytes a block, the weak
      checksum first. */
  lemma {:induction false} SignatureBytes(s: D.Signature, k: nat)
    requires k < |s.blocks| < MOD32
    ensures var b := EncodeSignature(s);
            && |b| == 16 + 20 * |s.blocks|
            && FromBe(b[..4]) == s.blockSize && FromBe(b[4..12]) == s.fileSize && FromBe(b[12..16]) == |s.blocks|
            && FromBe(b[16 + 20 * k..20 + 20 * k]) == s.blocks[k].weak && b[20 + 20 * k..36 + 20 * k] == s.blocks[k].strong
  {
    hide *;
    var b, bs := EncodeSignature(s), EncodeBlocks(s.blocks);
    SignatureFields(s);
    NumbersOfSignature(s, k);
    BlockBytes(s.blocks, k);
    assert b[16..] == bs;
    assert b[16 + 20 * k..20 + 20 * k] == bs[20 * k..20 * k + 4] && b[20 + 20 * k..36 + 20 * k] == bs[20 * k + 4..20 * k + 20];
  }

  lemma SignatureFields(s: D.Signature)
    requires |s.blocks| < MOD32
    ensures var b := EncodeSignature(s);
            && |b| == 16 + 20 * |s.blocks| && b[16..] == EncodeBlocks(s.blocks)
            && b[..4] == Be(s.blockSize, 4) && b[4..12] == Be(s.fileSize, 8) && b[12..16] == Be(|s.blocks|, 4)
  {
    CountIsBe(|s.blocks|);
    hide Be, EncodeBlocks, EncodeCount;
  }

  lemma NumbersOfSignature(s: D.Signature, k: nat)
    requires k < |s.blocks| < MOD32
    ensures FromBe(Be(s.blockSize, 4)) == s.blockSize && FromBe(Be(s.fileSize, 8)) == s.fileSize
    ensures FromBe(Be(|s.blocks|, 4)) == |s.blocks| && FromBe(Be(s.blocks[k].weak, 4)) == s.blocks[k].weak
  {
    PowValues();
    hide Be, FromBe;
    FromBeOfBe(s.blockSize, 4);
    FromBeOfBe(s.fileSize, 8);
    FromBeOfBe(|s.blocks|, 4);
    FromBeOfBe(s.blocks[k].weak, 4);
  }

  lemma {:induction false} BlockBytes(bs: seq<D.BlockSig>, k: nat)
    requires k < |bs|
    ensures var b := EncodeBlocks(bs);
            b[20 * k..20 * k + 4] == Be(bs[k].weak, 4) && b[20 * k + 4..20 * k + 20] == bs[k].strong
  {
    hide *;
    var head, rest := EncodeBlock(bs[0]), EncodeBlocks(bs[1..]);
    FirstBlock(bs);
    if k == 0 {
      assert (head + rest)[..4] == head[..4] && (head + rest)[4..20] == head[4..];
    } else {
      BlockBytes(bs[1..], k - 1);
      Further(head, rest, 20 * k - 20);
    }
  }

  lemma FirstBlock(bs: seq<D.BlockSig>)
    requires bs != []
    ensures EncodeBlocks(bs) == EncodeBlock(bs[0]) + EncodeBlocks(bs[1..])
    ensures EncodeBlock(bs[0])[..4] == Be(bs[0].weak, 4) && EncodeBlock(bs[0])[4..] == bs[0].strong
  {
    hide Be;
  }

  lemma Further(head: Bytes, rest: Bytes, at: nat)
    requires |head| == 20 && at + 20 <= |rest|
    ensures (head + rest)[at + 20..at + 24] == rest[at..at + 4] && (head + rest)[at + 24..at + 40] == rest[at + 4..at + 20]
  {
  }
}
