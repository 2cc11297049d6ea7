/** Byte-wise lexicographic order, and the sorted listing of a set of paths that
    iterating a std::map or std::set yields. */
module Order {
  import opened Types

  predicate Less(a: Bytes, b: Bytes) {
    b != [] && (a == [] || a[0] < b[0] || (a[0] == b[0] && Less(a[1..], b[1..])))
  }

  lemma {:induction false} LessIsTotal(a: Bytes, b: Bytes)
    ensures a == b || Less(a, b) || Less(b, a)
  {
    if a != [] && b != [] && a[0] == b[0] {
      LessIsTotal(a[1..], b[1..]);
      assert a == [a[0]] + a[1..] && b == [b[0]] + b[1..];
    }
  }

  lemma {:induction false} LessIsAsymmetric(a: Bytes, b: Bytes)
    ensures !(Less(a, b) && Less(b, a))
  {
    if a != [] && b != [] {
      LessIsAsymmetric(a[1..], b[1..]);
    }
  }

  lemma {:induction false} LessIsTransitive(a: Bytes, b: Bytes, c: Bytes)
    requires Less(a, b) && Less(b, c)
    ensures Less(a, c)
  {
    if a != [] && a[0] == b[0] && b[0] == c[0] {
      LessIsTransitive(a[1..], b[1..], c[1..]);
    }
  }

  predicate Sorted(s: seq<Path>) {
    forall i, j :: 0 <= i < j < |s| ==> Less(s[i], s[j])
  }

  lemma SortedHasNoDuplicates(s: seq<Path>)
    requires Sorted(s)
    ensures forall i, j :: 0 <= i < j < |s| ==> s[i] != s[j]
  {
    forall i, j | 0 <= i < j < |s|
      ensures s[i] != s[j]
    {
      LessIsAsymmetric(s[i], s[j]);
    }
  }

  /** Appending above everything listed so far keeps a listing sorted. */
  lemma SortedAppend(s: seq<Path>, p: Path)
    requires Sorted(s) && (s != [] ==> Less(s[|s| - 1], p))
    ensures Sorted(s + [p])
  {
    forall i | 0 <= i < |s|
      ensures Less(s[i], p)
    {
      if i < |s| - 1 {
        LessIsTransitive(s[i], s[|s| - 1], p);
      }
    }
  }

  ghost predicate IsLeast(p: Path, keys: set<Path>) {
    p in keys && forall q :: q in keys && q != p ==> Less(p, q)
  }

  lemma {:induction false} LeastExists(keys: set<Path>)
    requires keys != {}
    ensures exists p :: IsLeast(p, keys)
  {
    var p :| p in keys;
    if keys == {p} {
      assert IsLeast(p, keys);
    } else {
      LeastExists(keys - {p});
      var q :| IsLeast(q, keys - {p});
      LessIsTotal(p, q);
      if Less(q, p) {
        assert IsLeast(q, keys);
      } else {
        forall r | r in keys && r != p
          ensures Less(p, r)
        {
          if r != q {
            LessIsTransitive(p, q, r);
          }
        }
        assert IsLeast(p, keys);
      }
    }
  }

  lemma LeastIsUnique(keys: set<Path>)
    ensures forall p, q :: IsLeast(p, keys) && IsLeast(q, keys) ==> p == q
  {
    forall p, q | IsLeast(p, keys) && IsLeast(q, keys)
      ensures p == q
    {
      LessIsAsymmetric(p, q);
    }
  }

  function Least(keys: set<Path>): (p: Path)
    requires keys != {}
    ensures IsLeast(p, keys)
  {
    LeastExists(keys);
    LeastIsUnique(keys);
    assert forall p | p in keys && forall q | q in keys :: q != p ==> Less(p, q) :: IsLeast(p, keys);
    var p :| p in keys && forall q | q in keys :: q != p ==> Less(p, q);
    p
  }

  /** The order in which a std::map or std::set with these keys is iterated. */
  function Listing(keys: set<Path>): (s: seq<Path>)
    ensures Sorted(s)
    ensures forall p :: p in s <==> p in keys
  {
    if keys == {} then [] else
      var p := Least(keys);
      var rest := Listing(keys - {p});
      assert forall q :: q in rest ==> Less(p, q);
      [p] + rest
  }

  /** A sorted listing is determined by what it lists. */
  lemma {:induction false} SortedIsUnique(s: seq<Path>, t: seq<Path>)
    requires Sorted(s) && Sorted(t)
    requires forall p :: p in s <==> p in t
    ensures s == t
  {
    SortedHasNoDuplicates(s);
    SortedHasNoDuplicates(t);
    assert s != [] ==> s[0] in s;
    assert t != [] ==> t[0] in t;
    if s != [] && t != [] {
      assert s[0] in t && t[0] in s;
      var i :| 0 <= i < |t| && t[i] == s[0];
      var j :| 0 <= j < |s| && s[j] == t[0];
      if i > 0 || j > 0 {
        LessIsAsymmetric(s[0], t[0]);
      }
      assert s[0] == t[0];
      forall p
        ensures p in s[1..] <==> p in t[1..]
      {
        assert p in s <==> p == s[0] || p in s[1..];
        assert p in t <==> p == t[0] || p in t[1..];
      }
      SortedIsUnique(s[1..], t[1..]);
      assert s == [s[0]] + s[1..] && t == [t[0]] + t[1..];
    }
  }
}
