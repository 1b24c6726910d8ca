/** Integers as bytes, most or least significant first, reduced modulo the width as a `DataView` does. */
module ByteOrder {
  import opened Arithmetic

  newtype byte = x: int | 0 <= x < 256

  function Pow256(n: nat): nat {
    if n == 0 then 1 else 256 * Pow256(n - 1)
  }

  function BigEndian(v: int, n: nat): (b: seq<byte>)
    ensures |b| == n
    decreases n
  {
    if n == 0 then [] else BigEndian(v / 256, n - 1) + [(v % 256) as byte]
  }

  function FromBigEndian(b: seq<byte>): nat {
    if b == [] then 0 else FromBigEndian(b[..|b| - 1]) * 256 + b[|b| - 1] as int
  }

  function Reverse(b: seq<byte>): (r: seq<byte>)
    ensures |r| == |b|
  {
    if b == [] then [] else Reverse(b[1..]) + [b[0]]
  }

  function LittleEndian(v: int, n: nat): seq<byte> {
    Reverse(BigEndian(v, n))
  }

  function FromLittleEndian(b: seq<byte>): nat {
    FromBigEndian(Reverse(b))
  }

  /** Two's complement reading of an `n`-byte number. */
  function Signed(u: int, n: nat): int {
    if 2 * u >= Pow256(n) then u - Pow256(n) else u
  }

  lemma {:induction false} ReverseSnoc(b: seq<byte>, x: byte)
    ensures Reverse(b + [x]) == [x] + Reverse(b)
  {
    if b == [] {
      assert [x][1..] == [];
    } else {
      assert (b + [x])[1..] == b[1..] + [x];
      ReverseSnoc(b[1..], x);
    }
  }

  lemma {:induction false} ReverseTwice(b: seq<byte>)
    ensures Reverse(Reverse(b)) == b
  {
    if b != [] {
      ReverseTwice(b[1..]);
      ReverseSnoc(Reverse(b[1..]), b[0]);
      assert b == [b[0]] + b[1..];
    }
  }

  lemma {:induction false} BigEndianRoundTrip(v: int, n: nat)
    ensures FromBigEndian(BigEndian(v, n)) < Pow256(n)
    ensures exists k :: FromBigEndian(BigEndian(v, n)) == v + k * Pow256(n)
    decreases n
  {
    if n == 0 {
      assert 0 == v + (-v) * Pow256(0);
    } else {
      BigEndianRoundTrip(v / 256, n - 1);
      var b := BigEndian(v, n);
      assert b[..n - 1] == BigEndian(v / 256, n - 1);
      var k :| FromBigEndian(b[..n - 1]) == v / 256 + k * Pow256(n - 1);
      assert FromBigEndian(b) == (v / 256 + k * Pow256(n - 1)) * 256 + v % 256;
      assert k * Pow256(n - 1) * 256 == k * Pow256(n);
      assert FromBigEndian(b) == v + k * Pow256(n);
    }
  }

  lemma {:induction false} PowPositive(n: nat)
    ensures Pow256(n) > 0
  {
    if n > 0 {
      PowPositive(n - 1);
    }
  }

  lemma Residue(v: int, u: nat, k: int, m: nat)
    requires u < m && u == v + k * m
    ensures u == v % m
  {
    assert (-k) * m == -(k * m);
    DivModUnique(v, -k, u, m);
  }

  /** Writing and reading an integer gives it back modulo 256^n, in either byte order. */
  lemma BytesRoundTrip(v: int, n: nat)
    ensures Pow256(n) > 0
    ensures FromBigEndian(BigEndian(v, n)) == v % Pow256(n)
    ensures FromLittleEndian(LittleEndian(v, n)) == v % Pow256(n)
  {
    PowPositive(n);
    BigEndianRoundTrip(v, n);
    var u := FromBigEndian(BigEndian(v, n));
    var k :| u == v + k * Pow256(n);
    Residue(v, u, k, Pow256(n));
    ReverseTwice(BigEndian(v, n));
  }

  lemma SignedResidue(v: int, m: nat)
    requires m > 0
    ensures var u := v % m;
            var s := if 2 * u >= m then u - m else u;
            && -(m as int) <= 2 * s < m
            && s % m == u
            && (-(m as int) <= 2 * v < m ==> s == v)
  {
    var u := v % m;
    DivModUnique(u - m, -1, u, m);
    DivModUnique(u, 0, u, m);
    if 0 <= v < m {
      DivModUnique(v, 0, v, m);
    } else if -(m as int) <= v < 0 {
      DivModUnique(v, -1, v + m, m);
    }
  }

  /** The signed reading of the unsigned residue is the number itself whenever it fits. */
  lemma SignedRoundTrip(v: int, n: nat)
    requires Pow256(n) > 0
    ensures var s := Signed(v % Pow256(n), n);
            && -(Pow256(n) as int) <= 2 * s < Pow256(n)
            && s % Pow256(n) == v % Pow256(n)
            && (-(Pow256(n) as int) <= 2 * v < Pow256(n) ==> s == v)
  {
    var m := Pow256(n);
    SignedResidue(v, m);
  }
}
