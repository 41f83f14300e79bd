/** Numbers written with digits: each digit counts the power of the base that its place stands for. */
module Numerals {

  function Pow(base: nat, k: nat): nat {
    if k == 0 then 1 else base * Pow(base, k - 1)
  }

  function NumberOf(base: nat, ds: seq<nat>): nat
    decreases |ds|
  {
    if ds == [] then 0 else ds[0] * Pow(base, |ds| - 1) + NumberOf(base, ds[1..])
  }

  lemma Spread(a: nat, base: nat, p: nat, rest: nat)
    ensures (a * p + rest) * base == a * (base * p) + rest * base
  {
  }

  /** The last digit counts one, and the others the base times what they count without it. */
  lemma {:induction false} NumberLast(base: nat, ds: seq<nat>)
    requires ds != []
    ensures NumberOf(base, ds) == NumberOf(base, ds[..|ds| - 1]) * base + ds[|ds| - 1]
    decreases |ds|
  {
    var n := |ds| - 1;
    if n > 0 {
      NumberLast(base, ds[1..]);
      var mid := ds[..n][1..];
      assert ds[1..][..n - 1] == mid && ds[1..][n - 1] == ds[n];
      assert NumberOf(base, ds[..n]) == ds[0] * Pow(base, n - 1) + NumberOf(base, mid);
      Spread(ds[0], base, Pow(base, n - 1), NumberOf(base, mid));
    }
  }

  lemma PowTimes(a: nat, b: nat, p: nat, n: nat)
    ensures a * (b * p) + n == a * b * p + n
  {
  }

  lemma {:induction false} PowAdd(base: nat, m: nat, n: nat)
    ensures Pow(base, m + n) == Pow(base, m) * Pow(base, n)
    decreases m
  {
    if m > 0 {
      PowAdd(base, m - 1, n);
      PowTimes(base, Pow(base, m - 1), Pow(base, n), 0);
    }
  }

  lemma Distribute(d: nat, p: nat, q: nat, a: nat, b: nat)
    ensures d * (p * q) + (a * q + b) == (d * p + a) * q + b
  {
  }

  /** More digits behind a number shift it by their places. */
  lemma {:induction false} NumberConcat(base: nat, a: seq<nat>, b: seq<nat>)
    ensures NumberOf(base, a + b) == NumberOf(base, a) * Pow(base, |b|) + NumberOf(base, b)
    decreases |a|
  {
    if a == [] {
      assert a + b == b;
    } else {
      assert (a + b)[1..] == a[1..] + b;
      NumberConcat(base, a[1..], b);
      PowAdd(base, |a| - 1, |b|);
      Distribute(a[0], Pow(base, |a| - 1), Pow(base, |b|), NumberOf(base, a[1..]), NumberOf(base, b));
    }
  }

  // ---------------------------------------------------------------- bytes

  newtype Octet = x: int | 0 <= x < 0x100

  lemma OctetBack(n: Octet)
    ensures (n as bv8) as int == n as int
  {
    assert 0 <= (n as bv8) as int < 0x100;
  }

  /** A number below 256 is the value of the byte that holds it. */
  lemma ByteHolds(n: nat)
    requires n < 0x100
    ensures (n as bv8) as nat == n
  {
    OctetBack(n as Octet);
  }
}
