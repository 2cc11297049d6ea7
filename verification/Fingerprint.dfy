/** The content fingerprint of a tree: what is hashed, and that the hashed bytes name the
    tree although paths carry no length prefix. SHA-256 is an arbitrary function. */
module Fingerprint {
  import opened Types
  import opened Order
  import opened Serialize
  import opened Manifests
  import opened Codec

  function HashedMeta(m: FileMeta): (b: Bytes)
    ensures |b| == 44
  {
    Be(m.size, 8) + (Be(m.mode, 4) + m.hash)
  }

  function Stream(es: seq<Entry>): Bytes {
    if es == [] then [] else es[0].0 + (HashedMeta(es[0].1) + Stream(es[1..]))
  }

  /** The bytes the fingerprint hashes. */
  function PreImage(t: Tree): Bytes {
    Stream(EntriesOf(t))
  }

  lemma {:induction false} StreamSnoc(es: seq<Entry>, e: Entry)
    ensures Stream(es + [e]) == Stream(es) + e.0 + HashedMeta(e.1)
  {
    hide HashedMeta;
    if es == [] {
      assert [e][1..] == [];
      assert Stream([e]) == e.0 + (HashedMeta(e.1) + []);
      assert [] + [e] == [e];
    } else {
      StreamSnoc(es[1..], e);
      assert (es + [e])[1..] == es[1..] + [e];
    }
  }

  /** The running digest is modelled by the bytes it has absorbed. */
  method ComputeFingerprint(sha256: Bytes -> Hash, t: Tree) returns (h: Hash)
    ensures h == sha256(PreImage(t))
  {
    var es := EntriesOf(t);
    var absorbed: Bytes := [];
    for i := 0 to |es|
      invariant absorbed == Stream(es[..i])
    {
      StreamSnoc(es[..i], es[i]);
      assert es[..i + 1] == es[..i] + [es[i]];
      absorbed := absorbed + es[i].0;
      absorbed := absorbed + HashedMeta(es[i].1);
    }
    assert es[..|es|] == es;
    h := sha256(absorbed);
  }

  /** What one file adds to the hash: its path, then size, mode and hash at fixed places. */
  lemma OneFileHashed(p: Path, m: FileMeta)
    ensures var b, n := PreImage(map[p := m]), |p|;
            && |b| == n + 44 && b[..n] == p
            && FromBe(b[n..n + 8]) == m.size && FromBe(b[n + 8..n + 12]) == m.mode && b[n + 12..] == m.hash
  {
    var t: Tree, b, n := map[p := m], PreImage(map[p := m]), |p|;
    SortedIsUnique([p], Listing(t.Keys));
    assert EntriesOf(t) == [(p, m)];
    assert [(p, m)][1..] == [];
    assert Stream([]) == [];
    assert b == p + (HashedMeta(m) + []);
    PowValues();
    FromBeOfBe(m.size, 8);
    FromBeOfBe(m.mode, 4);
    hide Be, FromBe, Pow256, Stream, PreImage;
    assert b[n..n + 8] == Be(m.size, 8) && b[n + 8..n + 12] == Be(m.mode, 4);
  }

  // ----- Reading the stream back ------------------------------------------------

  /** What the fingerprint sees of an entry: everything but the mtime. */
  predicate SameButMtime(m: FileMeta, n: FileMeta) {
    m.size == n.size && m.mode == n.mode && m.hash == n.hash
  }

  ghost predicate SameTreeButMtime(t: Tree, u: Tree) {
    t.Keys == u.Keys && forall p :: p in t ==> SameButMtime(t[p], u[p])
  }

  /** A path without NUL, and a size below 2^56, whose top byte is therefore NUL. */
  predicate Delimited(e: Entry) {
    0 !in e.0 && e.1.size < 0x100_0000_0000_0000
  }

  lemma {:induction false} TopByteIsZero(v: nat, n: nat)
    requires v < Pow256(n)
    ensures Be(v, n + 1) == [0] + Be(v, n)
  {
    if n == 0 {
      assert Be(v / 256, 0) == [];
    } else {
      TopByteIsZero(v / 256, n - 1);
    }
  }

  lemma MetaStartsWithZero(m: FileMeta)
    requires m.size < 0x100_0000_0000_0000
    ensures HashedMeta(m)[0] == 0
  {
    PowValues();
    assert Pow256(8) == 256 * Pow256(7);
    TopByteIsZero(m.size, 7);
    assert HashedMeta(m)[0] == Be(m.size, 8)[0];
  }

  lemma MetaIsReadable(m: FileMeta, n: FileMeta)
    requires HashedMeta(m) == HashedMeta(n)
    ensures SameButMtime(m, n)
  {
    var a, b := HashedMeta(m), HashedMeta(n);
    assert a[..8] == Be(m.size, 8) && b[..8] == Be(n.size, 8);
    assert a[8..12] == Be(m.mode, 4) && b[8..12] == Be(n.mode, 4);
    assert a[12..] == m.hash && b[12..] == n.hash;
    PowValues();
    hide Be, HashedMeta;
    FromBeOfBe(m.size, 8);
    FromBeOfBe(n.size, 8);
    FromBeOfBe(m.mode, 4);
    FromBeOfBe(n.mode, 4);
  }

  /** The first NUL ends the path. */
  lemma HeadIsReadable(p: Path, a: Bytes, q: Path, b: Bytes)
    requires 0 !in p && 0 !in q && a != [] && b != [] && a[0] == 0 && b[0] == 0
    requires p + a == q + b
    ensures p == q && a == b
  {
    var s := p + a;
    assert s[|p|] == 0 && s[|q|] == 0;
    assert forall i :: 0 <= i < |p| ==> s[i] == p[i];
    assert forall i :: 0 <= i < |q| ==> s[i] == q[i];
    assert |p| == |q|;
    assert p == s[..|p|] && q == s[..|q|] && a == s[|p|..] && b == s[|q|..];
  }

  ghost predicate AllDelimited(es: seq<Entry>) {
    forall i :: 0 <= i < |es| ==> Delimited(es[i])
  }

  ghost predicate SameListing(es: seq<Entry>, fs: seq<Entry>) {
    |es| == |fs| && forall i :: 0 <= i < |es| ==> es[i].0 == fs[i].0 && SameButMtime(es[i].1, fs[i].1)
  }

  lemma StreamUnfold(es: seq<Entry>)
    requires es != [] && AllDelimited(es)
    ensures Stream(es) == es[0].0 + (HashedMeta(es[0].1) + Stream(es[1..]))
    ensures Delimited(es[0]) && AllDelimited(es[1..])
    ensures (HashedMeta(es[0].1) + Stream(es[1..]))[0] == 0
  {
    MetaStartsWithZero(es[0].1);
  }

  lemma {:induction false} StreamIsReadable(es: seq<Entry>, fs: seq<Entry>)
    requires AllDelimited(es) && AllDelimited(fs) && Stream(es) == Stream(fs)
    ensures SameListing(es, fs)
  {
    if es == [] {
      if fs != [] {
        StreamUnfold(fs);
      }
    } else if fs == [] {
      StreamUnfold(es);
    } else {
      StreamUnfold(es);
      StreamUnfold(fs);
      var a, b := HashedMeta(es[0].1) + Stream(es[1..]), HashedMeta(fs[0].1) + Stream(fs[1..]);
      HeadIsReadable(es[0].0, a, fs[0].0, b);
      hide Stream, HashedMeta, AllDelimited;
      assert a[..44] == HashedMeta(es[0].1) && b[..44] == HashedMeta(fs[0].1);
      assert a[44..] == Stream(es[1..]) && b[44..] == Stream(fs[1..]);
      MetaIsReadable(es[0].1, fs[0].1);
      StreamIsReadable(es[1..], fs[1..]);
      assert es == [es[0]] + es[1..] && fs == [fs[0]] + fs[1..];
    }
  }

  lemma {:induction false} SameListingSameStream(es: seq<Entry>, fs: seq<Entry>)
    requires SameListing(es, fs)
    ensures Stream(es) == Stream(fs)
  {
    if es != [] {
      assert SameListing(es[1..], fs[1..]);
      SameListingSameStream(es[1..], fs[1..]);
    }
  }

  ghost predicate DelimitedTree(t: Tree) {
    forall p :: p in t ==> Delimited((p, t[p]))
  }

  lemma EntryAt(t: Tree, i: nat)
    requires i < |EntriesOf(t)|
    ensures var e := EntriesOf(t)[i]; e.0 in t && e.1 == t[e.0] && e.0 == Listing(t.Keys)[i]
  {
    assert Listing(t.Keys)[i] in Listing(t.Keys);
  }

  lemma PathAt(t: Tree, p: Path) returns (i: nat)
    requires p in t
    ensures i < |EntriesOf(t)| && EntriesOf(t)[i] == (p, t[p])
  {
    i :| 0 <= i < |Listing(t.Keys)| && Listing(t.Keys)[i] == p;
  }

  lemma ListingNamesTree(t: Tree, u: Tree)
    requires SameListing(EntriesOf(t), EntriesOf(u))
    ensures SameTreeButMtime(t, u)
  {
    hide EntriesOf, SameButMtime;
    forall p
      ensures p in t <==> p in u
      ensures p in t ==> SameButMtime(t[p], u[p])
    {
      if p in t {
        var i := PathAt(t, p);
        EntryAt(u, i);
      }
      if p in u {
        var i := PathAt(u, p);
        EntryAt(t, i);
      }
    }
  }

  lemma SameListingIsSameTree(t: Tree, u: Tree)
    ensures SameListing(EntriesOf(t), EntriesOf(u)) <==> SameTreeButMtime(t, u)
  {
    var es, fs := EntriesOf(t), EntriesOf(u);
    ListedEntries(t);
    ListedEntries(u);
    hide EntriesOf, SameButMtime;
    if SameListing(es, fs) {
      ListingNamesTree(t, u);
    }
    if SameTreeButMtime(t, u) {
      assert Keys(es) == Keys(fs);
      forall i | 0 <= i < |es|
        ensures es[i].0 == fs[i].0 && SameButMtime(es[i].1, fs[i].1)
      {
        EntryAt(t, i);
        EntryAt(u, i);
      }
    }
  }

  lemma ListedAreDelimited(t: Tree)
    requires DelimitedTree(t)
    ensures AllDelimited(EntriesOf(t))
  {
    forall i | 0 <= i < |EntriesOf(t)|
      ensures Delimited(EntriesOf(t)[i])
    {
      EntryAt(t, i);
      assert EntriesOf(t)[i] == (EntriesOf(t)[i].0, t[EntriesOf(t)[i].0]);
    }
  }

  /** The hashed bytes determine the tree up to mtimes, and mtimes never affect them. */
  lemma PreImageNamesTree(t: Tree, u: Tree)
    requires DelimitedTree(t) && DelimitedTree(u)
    ensures PreImage(t) == PreImage(u) <==> SameTreeButMtime(t, u)
  {
    ListedAreDelimited(t);
    ListedAreDelimited(u);
    SameListingIsSameTree(t, u);
    hide EntriesOf, Stream, SameListing, SameTreeButMtime, AllDelimited, DelimitedTree;
    if PreImage(t) == PreImage(u) {
      StreamIsReadable(EntriesOf(t), EntriesOf(u));
    }
    if SameTreeButMtime(t, u) {
      SameListingSameStream(EntriesOf(t), EntriesOf(u));
    }
  }

  // ----- Where the size bound comes from ----------------------------------------

  function Zeros(n: nat): Bytes {
    seq(n, _ => 0)
  }

  lemma {:induction false} ZeroInBytes(n: nat)
    ensures Be(0, n) == Zeros(n)
  {
    if n > 0 {
      ZeroInBytes(n - 1);
    }
  }

  /** Any list with increasing paths is the listing of some tree. */
  function TreeOf(e: Entry, f: Entry): Tree {
    map[e.0 := e.1, f.0 := f.1]
  }

  lemma ListingOfTwo(e: Entry, f: Entry)
    requires Less(e.0, f.0)
    ensures PreImage(TreeOf(e, f)) == e.0 + (HashedMeta(e.1) + (f.0 + HashedMeta(f.1)))
  {
    var t := TreeOf(e, f);
    LessIsAsymmetric(e.0, f.0);
    var keys := [e.0, f.0];
    assert Sorted(keys);
    SortedIsUnique(keys, Listing(t.Keys));
    assert EntriesOf(t) == [e, f];
    hide HashedMeta;
    assert [e, f][1..] == [f] && [f][1..] == [];
    assert HashedMeta(f.1) + Stream([]) == HashedMeta(f.1);
    assert Stream([f]) == f.0 + HashedMeta(f.1);
  }

  lemma OneByteSize(x: byte)
    ensures 0 <= x * 0x100_0000_0000_0000 < MOD64
    ensures Be(x * 0x100_0000_0000_0000, 8) == [x] + Zeros(7)
  {
    PowValues();
    assert Pow256(8) == 256 * Pow256(7);
    ShiftedByte(x, 7);
  }

  lemma {:induction false} ShiftedByte(x: byte, n: nat)
    ensures Be(x * Pow256(n), n + 1) == [x] + Zeros(n)
  {
    if n == 0 {
      assert Be(x / 256, 0) == [];
    } else {
      ShiftedByte(x, n - 1);
      assert x * Pow256(n) == 256 * (x * Pow256(n - 1));
      assert Zeros(n) == Zeros(n - 1) + [0];
    }
  }

  const A: byte := 'a' as int
  const C: byte := 'c' as int
  const D: byte := 'd' as int

  function Plain(size: u64, last: byte): FileMeta {
    FileMeta(size, 0, 0, seq(32, i => if i == 31 then last else 0))
  }

  lemma PlainBytes(size: u64, last: byte)
    ensures HashedMeta(Plain(size, last)) == Be(size, 8) + Zeros(35) + [last]
  {
    ZeroInBytes(4);
    assert Plain(size, last).hash == Zeros(31) + [last];
    assert Zeros(4) + (Zeros(31) + [last]) == Zeros(35) + [last];
    hide Be;
    assert Be(size, 8) + (Zeros(35) + [last]) == Be(size, 8) + Zeros(35) + [last];
  }

  lemma SameBytes(x: byte, tail: Bytes)
    ensures [A] + (([x] + Zeros(7) + Zeros(35) + [0]) + ([C, D] + tail)) ==
            [A, x] + ((Zeros(8) + Zeros(35) + [C]) + ([D] + tail))
  {
  }

  /** A size whose top byte is x, after a path, and the same path ending in x, before a size
      of zero: two trees that share no path and hash the same bytes. */
  function SizeIsX(x: byte): Tree {
    TreeOf(([A], Plain((x * 0x100_0000_0000_0000) % MOD64, 0)), ([C, D], Plain(0, 0)))
  }

  function PathEndsInX(x: byte): Tree {
    TreeOf(([A, x], Plain(0, C)), ([D], Plain(0, 0)))
  }

  lemma TopByteConfuses(x: byte)
    ensures PreImage(SizeIsX(x)) == PreImage(PathEndsInX(x)) && SizeIsX(x).Keys !! PathEndsInX(x).Keys
  {
    hide *;
    PathsDiffer(x);
    SizeIsXBytes(x);
    PathEndsInXBytes(x);
    SameBytes(x, HashedMeta(Plain(0, 0)));
  }

  lemma SizeIsXOf(x: byte, size: u64)
    requires size == x * 0x100_0000_0000_0000
    ensures SizeIsX(x) == TreeOf(([A], Plain(size, 0)), ([C, D], Plain(0, 0)))
  {
    hide TreeOf;
  }

  /** The two entries of that tree; the first one's hashed metadata begins with x. */
  lemma SizeIsXEntries(x: byte) returns (e: Entry, f: Entry)
    ensures SizeIsX(x) == TreeOf(e, f) && Less(e.0, f.0)
    ensures e.0 == [A] && HashedMeta(e.1) == [x] + Zeros(7) + Zeros(35) + [0]
    ensures f == ([C, D], Plain(0, 0))
  {
    hide *;
    OneByteSize(x);
    PathsDiffer(x);
    var size: u64 := x * 0x100_0000_0000_0000;
    e, f := ([A], Plain(size, 0)), ([C, D], Plain(0, 0));
    SizeIsXOf(x, size);
    PlainBytes(size, 0);
  }

  lemma SizeIsXBytes(x: byte)
    ensures PreImage(SizeIsX(x)) == [A] + (([x] + Zeros(7) + Zeros(35) + [0]) + ([C, D] + HashedMeta(Plain(0, 0))))
  {
    hide *;
    var e, f := SizeIsXEntries(x);
    ListingOfTwo(e, f);
  }

  lemma PathEndsInXBytes(x: byte)
    ensures PreImage(PathEndsInX(x)) == [A, x] + ((Zeros(8) + Zeros(35) + [C]) + ([D] + HashedMeta(Plain(0, 0))))
  {
    var e: Entry, f: Entry := ([A, x], Plain(0, C)), ([D], Plain(0, 0));
    assert PathEndsInX(x) == TreeOf(e, f);
    PathsDiffer(x);
    hide *;
    ListingOfTwo(e, f);
    ZeroInBytes(8);
    PlainBytes(0, C);
  }

  lemma PathsDiffer(x: byte)
    ensures Less([A], [C, D]) && Less([A, x], [D])
    ensures SizeIsX(x).Keys !! PathEndsInX(x).Keys
  {
    assert |[A]| == 1 && |[A, x]| == 2 && |[C, D]| == 2 && [A][0] != [D][0] && [C, D][0] != [A, x][0];
    assert SizeIsX(x).Keys == {[A], [C, D]} && PathEndsInX(x).Keys == {[A, x], [D]};
  }

  ghost predicate NulFree(t: Tree) {
    forall p :: p in t ==> 0 !in p
  }

  ghost predicate SizesBelow(t: Tree, bound: nat) {
    forall p :: p in t ==> t[p].size < bound
  }

  /** The hashed bytes tell these two trees apart. */
  ghost predicate ToldApart(t: Tree, u: Tree) {
    PreImage(t) == PreImage(u) ==> SameTreeButMtime(t, u)
  }

  lemma Confused(x: byte)
    ensures !ToldApart(SizeIsX(x), PathEndsInX(x))
    ensures SizesBelow(SizeIsX(x), x * 0x100_0000_0000_0000 + 1) && SizesBelow(PathEndsInX(x), 1)
    ensures NulFree(SizeIsX(x)) && (x != 0 ==> NulFree(PathEndsInX(x)))
  {
    TopByteConfuses(x);
    assert [A] in SizeIsX(x);
    ConfusedSizes(x);
    hide PreImage, SizesBelow, NulFree;
  }

  lemma ConfusedSizes(x: byte)
    ensures SizesBelow(SizeIsX(x), x * 0x100_0000_0000_0000 + 1) && SizesBelow(PathEndsInX(x), 1)
    ensures NulFree(SizeIsX(x)) && (x != 0 ==> NulFree(PathEndsInX(x)))
  {
    OneByteSize(x);
    hide Be;
  }

  /** Exactly which size bound the fingerprint needs: all trees without NUL in their paths
      and with smaller sizes are told apart if and only if the bound is at most 2^56. */
  lemma SizeBoundExactly(bound: nat)
    ensures (forall t, u :: NulFree(t) && NulFree(u) && SizesBelow(t, bound) && SizesBelow(u, bound) ==> ToldApart(t, u)) <==>
            bound <= 0x100_0000_0000_0000
  {
    if bound <= 0x100_0000_0000_0000 {
      forall t, u | NulFree(t) && NulFree(u) && SizesBelow(t, bound) && SizesBelow(u, bound)
        ensures ToldApart(t, u)
      {
        PreImageNamesTree(t, u);
        hide PreImage, SameTreeButMtime;
      }
    } else {
      Confused(1);
      assert SizesBelow(SizeIsX(1), bound) && SizesBelow(PathEndsInX(1), bound);
      hide ToldApart, SizeIsX, PathEndsInX, SizesBelow, NulFree;
      assert !ToldApart(SizeIsX(1), PathEndsInX(1));
    }
  }

  /** And it needs the paths to be without NUL: with any paths, no bound that admits a file,
      even an empty one, is small enough. */
  lemma NulPathsConfuseExactly(bound: nat)
    ensures (forall t, u :: SizesBelow(t, bound) && SizesBelow(u, bound) ==> ToldApart(t, u)) <==> bound == 0
  {
    if bound == 0 {
      forall t, u | SizesBelow(t, bound) && SizesBelow(u, bound)
        ensures ToldApart(t, u)
      {
        assert t == map[] && u == map[];
      }
    } else {
      Confused(0);
      assert SizesBelow(SizeIsX(0), bound) && SizesBelow(PathEndsInX(0), bound);
      hide ToldApart, SizeIsX, PathEndsInX, SizesBelow;
      assert !ToldApart(SizeIsX(0), PathEndsInX(0));
    }
  }
}
