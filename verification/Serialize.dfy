/** The big-endian writer and the bounds-checked reader. */
module Serialize {
  import opened Types

  function Pow256(n: nat): (r: nat)
    ensures r > 0
  {
    if n == 0 then 1 else 256 * Pow256(n - 1)
  }

  lemma PowValues()
    ensures Pow256(1) == 0x100 && Pow256(2) == 0x1_0000
    ensures Pow256(4) == 0x1_0000_0000 && Pow256(8) == 0x1_0000_0000_0000_0000
  {
    assert Pow256(3) == 256 * Pow256(2);
    assert Pow256(5) == 256 * Pow256(4);
    assert Pow256(6) == 256 * Pow256(5);
    assert Pow256(7) == 256 * Pow256(6);
  }

  /** The low n bytes of v, most significant first. */
  function Be(v: nat, n: nat): (b: Bytes)
    ensures |b| == n
  {
    if n == 0 then [] else Be(v / 256, n - 1) + [v % 256]
  }

  function FromBe(b: Bytes): nat {
    if b == [] then 0 else FromBe(b[..|b| - 1]) * 256 + b[|b| - 1]
  }

  lemma {:induction false} BeOfFromBe(b: Bytes)
    ensures Be(FromBe(b), |b|) == b && FromBe(b) < Pow256(|b|)
  {
    if b != [] {
      BeOfFromBe(b[..|b| - 1]);
    }
  }

  lemma {:induction false} FromBeOfBe(v: nat, n: nat)
    requires v < Pow256(n)
    ensures FromBe(Be(v, n)) == v
  {
    if n > 0 {
      FromBeOfBe(v / 256, n - 1);
      assert Be(v, n)[..n - 1] == Be(v / 256, n - 1);
    }
  }

  lemma DivDiv(v: nat, n: nat)
    ensures v / 256 / Pow256(n) == v / Pow256(n + 1)
  {
    var d := Pow256(n);
    var q, r := v / 256 / d, v / 256 % d;
    assert v == 256 * (q * d + r) + v % 256;
    assert 256 * (q * d + r) + v % 256 == q * (256 * d) + (256 * r + v % 256);
    Quotient(v, 256 * d, q, 256 * r + v % 256);
  }

  lemma MultipleIsLarge(x: int, d: int)
    requires d >= 0
    ensures x >= 1 ==> x * d >= d
    ensures x <= -1 ==> x * d <= -d
  {
  }

  lemma Quotient(v: nat, d: nat, q: nat, r: nat)
    requires v == q * d + r && r < d
    ensures v / d == q
  {
    var a, m := v / d, v % d;
    assert v == a * d + m && 0 <= m < d;
    assert (a - q) * d == r - m;
    MultipleIsLarge(a - q, d);
  }

  /** Most significant first: the k-th byte is worth 256^(n-1-k). */
  lemma {:induction false} BeDigit(v: nat, n: nat, k: nat)
    requires k < n
    ensures Be(v, n)[k] == v / Pow256(n - 1 - k) % 256
  {
    if k < n - 1 {
      BeDigit(v / 256, n - 1, k);
      DivDiv(v, n - 2 - k);
    }
  }

  /** An integer read back from its bytes, and the bytes from the integer. */
  lemma BeRoundTrip(v: nat, n: nat, rest: Bytes)
    requires v < Pow256(n)
    ensures ReadUInt(Cursor(Be(v, n) + rest, true), n) == (v, Cursor(rest, true))
  {
    FromBeOfBe(v, n);
    assert (Be(v, n) + rest)[..n] == Be(v, n) && (Be(v, n) + rest)[n..] == rest;
  }

  /** v shifted right by k bytes. */
  function ShiftRight(v: nat, k: nat): nat {
    if k == 0 then v else ShiftRight(v, k - 1) / 256
  }

  // ----- Writing ----------------------------------------------------------------

  class BinaryWriter {
    var buf: Bytes

    constructor ()
      ensures buf == []
    {
      buf := [];
    }

    method U8(v: byte)
      modifies this
      ensures buf == old(buf) + [v]
    {
      buf := buf + [v];
    }

    method U16(v: u16)
      modifies this
      ensures buf == old(buf) + Be(v, 2)
    {
      assert Be(v, 2) == [v / 256, v % 256] by {
        assert Be(v / 256, 1) == Be(v / 256 / 256, 0) + [v / 256 % 256];
      }
      U8(v / 256);
      U8(v % 256);
    }

    /** The shift loop: byte by byte, most significant first. */
    method BigEndian(v: nat, n: nat)
      modifies this
      ensures buf == old(buf) + Be(v, n)
    {
      var k := n;
      while k > 0
        invariant 0 <= k <= n
        invariant buf == old(buf) + Be(ShiftRight(v, k), n - k)
      {
        k := k - 1;
        assert ShiftRight(v, k + 1) == ShiftRight(v, k) / 256;
        buf := buf + [ShiftRight(v, k) % 256];
      }
    }

    method U32(v: u32)
      modifies this
      ensures buf == old(buf) + Be(v, 4)
    {
      BigEndian(v, 4);
    }

    method U64(v: u64)
      modifies this
      ensures buf == old(buf) + Be(v, 8)
    {
      BigEndian(v, 8);
    }

    method I64(v: i64)
      modifies this
      ensures buf == old(buf) + Be(ToU64(v), 8)
    {
      U64(ToU64(v));
    }

    method Raw(data: Bytes)
      modifies this
      ensures buf == old(buf) + data
    {
      buf := buf + data;
    }

    /** The length prefix is truncated to 16 bits; the bytes are not. */
    method Str16(s: Bytes)
      modifies this
      ensures buf == old(buf) + EncodeStr16(s)
    {
      U16(|s| % MOD16);
      Raw(s);
    }
  }

  function ToU64(v: i64): u64 {
    if v < 0 then v + MOD64 else v
  }

  function FromU64(v: u64): i64 {
    if v < 0x8000_0000_0000_0000 then v else v - MOD64
  }

  function EncodeStr16(s: Bytes): (b: Bytes)
    ensures |b| == |s| + 2 && b[2..] == s
  {
    Be(|s| % MOD16, 2) + s
  }

  // ----- Reading ----------------------------------------------------------------

  /** What a reader has left, and whether it is still good. */
  datatype Cursor = Cursor(rest: Bytes, ok: bool)

  function ReadBytes(c: Cursor, n: nat): (Bytes, Cursor) {
    if c.ok && n <= |c.rest| then (c.rest[..n], Cursor(c.rest[n..], true))
    else ([], Cursor(c.rest, false))
  }

  function ReadUInt(c: Cursor, n: nat): (nat, Cursor) {
    (FromBe(ReadBytes(c, n).0), ReadBytes(c, n).1)
  }

  function ReadStr16(c: Cursor): (Bytes, Cursor) {
    var (n, c') := ReadUInt(c, 2);
    ReadBytes(c', n)
  }

  lemma UIntIsBounded(c: Cursor, n: nat)
    ensures ReadUInt(c, n).0 < Pow256(n)
  {
    BeOfFromBe(ReadBytes(c, n).0);
  }

  class BinaryReader {
    const data: Bytes
    var pos: nat
    var ok: bool

    ghost predicate Valid()
      reads this
    {
      pos <= |data|
    }

    ghost function View(): Cursor
      requires Valid()
      reads this
    {
      Cursor(data[pos..], ok)
    }

    constructor (data: Bytes)
      ensures Valid() && View() == Cursor(data, true)
    {
      this.data := data;
      pos, ok := 0, true;
    }

    function Remaining(): nat
      requires Valid()
      reads this
    {
      |data| - pos
    }

    method Take(n: nat) returns (good: bool)
      requires Valid()
      modifies this`ok
      ensures Valid()
      ensures good == ok == (old(ok) && n <= |old(View()).rest|)
    {
      if !ok || Remaining() < n {
        ok := false;
      }
      good := ok;
    }

    method Chunk(n: nat) returns (b: Bytes)
      requires Valid()
      modifies this
      ensures Valid()
      ensures (b, View()) == ReadBytes(old(View()), n)
    {
      var good := Take(n);
      if !good {
        return [];
      }
      b := data[pos..pos + n];
      assert data[pos..][..n] == b && data[pos..][n..] == data[pos + n..];
      pos := pos + n;
    }

    /** The accumulate loop: shift left eight, add the next byte. */
    method BigEndian(n: nat) returns (v: nat)
      requires Valid()
      modifies this
      ensures Valid()
      ensures (v, View()) == ReadUInt(old(View()), n)
    {
      var good := Take(n);
      v := 0;
      if !good {
        return;
      }
      ghost var b := data[pos..pos + n];
      for i := 0 to n
        invariant v == FromBe(b[..i])
      {
        assert b[..i + 1][..i] == b[..i];
        v := v * 256 + data[pos + i];
      }
      assert b[..n] == b && data[pos..][..n] == b && data[pos..][n..] == data[pos + n..];
      pos := pos + n;
    }

    method U32() returns (v: u32)
      requires Valid()
      modifies this
      ensures Valid()
      ensures (v, View()) == ReadUInt(old(View()), 4)
    {
      UIntIsBounded(View(), 4);
      PowValues();
      v := BigEndian(4);
    }

    method U64() returns (v: u64)
      requires Valid()
      modifies this
      ensures Valid()
      ensures (v, View()) == ReadUInt(old(View()), 8)
    {
      UIntIsBounded(View(), 8);
      PowValues();
      v := BigEndian(8);
    }

    method Str16() returns (s: Bytes)
      requires Valid()
      modifies this
      ensures Valid()
      ensures (s, View()) == ReadStr16(old(View()))
    {
      var n := BigEndian(2);
      s := Chunk(n);
    }
  }

  /** A reader that has failed yields nothing more and stays where it is. */
  lemma FailureIsSticky(c: Cursor, n: nat)
    requires !c.ok
    ensures ReadBytes(c, n) == ([], c) && ReadUInt(c, n) == (0, c) && ReadStr16(c) == ([], c)
  {
  }

  /** What an accepted read consumed is exactly the encoding of what it returned. */
  lemma AcceptedUInt(c: Cursor, n: nat)
    requires ReadUInt(c, n).1.ok
    ensures c.ok && c.rest == Be(ReadUInt(c, n).0, n) + ReadUInt(c, n).1.rest
  {
    BeOfFromBe(ReadBytes(c, n).0);
  }

  lemma AcceptedBytes(c: Cursor, n: nat)
    requires ReadBytes(c, n).1.ok
    ensures c.ok && |ReadBytes(c, n).0| == n && c.rest == ReadBytes(c, n).0 + ReadBytes(c, n).1.rest
  {
  }

  lemma AcceptedStr16(c: Cursor)
    requires ReadStr16(c).1.ok
    ensures c.ok && |ReadStr16(c).0| < MOD16 && c.rest == EncodeStr16(ReadStr16(c).0) + ReadStr16(c).1.rest
  {
    var (n, c') := ReadUInt(c, 2);
    UIntIsBounded(c, 2);
    PowValues();
    assert n < MOD16 && n % MOD16 == n;
    hide Be, FromBe, Pow256, ReadUInt, ReadBytes;
    AcceptedBytes(c', n);
    AcceptedUInt(c, 2);
    assert Be(n, 2) + (ReadStr16(c).0 + ReadStr16(c).1.rest) == Be(n, 2) + ReadStr16(c).0 + ReadStr16(c).1.rest;
  }

  lemma BytesRoundTrip(b: Bytes, rest: Bytes)
    ensures ReadBytes(Cursor(b + rest, true), |b|) == (b, Cursor(rest, true))
  {
    assert (b + rest)[..|b|] == b && (b + rest)[|b|..] == rest;
  }

  lemma Str16RoundTrip(s: Bytes, rest: Bytes)
    requires |s| < MOD16
    ensures ReadStr16(Cursor(EncodeStr16(s) + rest, true)) == (s, Cursor(rest, true))
  {
    PowValues();
    assert |s| < Pow256(2) && |s| % MOD16 == |s|;
    hide Be, FromBe, Pow256, ReadUInt, ReadBytes;
    assert EncodeStr16(s) + rest == Be(|s|, 2) + (s + rest);
    BeRoundTrip(|s|, 2, s + rest);
    BytesRoundTrip(s, rest);
  }
}
