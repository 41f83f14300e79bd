/** pow2gt: the buffer sizes of the printer. */
module CJsonPow2 {

  function Pow2(k: nat): (p: nat)
    ensures p >= 1
  {
    if k == 0 then 1 else 2 * Pow2(k - 1)
  }

  /** Bitwise or. */
  function Or(a: nat, b: nat): (c: nat)
    ensures c >= a && c >= b
    decreases a + b
  {
    if a == 0 then b
    else if b == 0 then a
    else 2 * Or(a / 2, b / 2) + (if a % 2 == 1 || b % 2 == 1 then 1 else 0)
  }

  lemma {:induction false} OrBelow(a: nat, b: nat, k: nat)
    requires a < Pow2(k) && b < Pow2(k)
    ensures Or(a, b) < Pow2(k)
    decreases k
  {
    if a != 0 && b != 0 {
      OrBelow(a / 2, b / 2, k - 1);
    }
  }

  /** High bits that only one operand has are kept as they are. */
  lemma {:induction false} OrHigh(h: nat, a: nat, b: nat, k: nat)
    requires a < Pow2(k) && b < Pow2(k)
    ensures Or(h * Pow2(k) + a, b) == h * Pow2(k) + Or(a, b)
    decreases k
  {
    if k > 0 && b > 0 {
      var p := Pow2(k - 1);
      assert h * Pow2(k) == 2 * (h * p);
      assert (h * Pow2(k) + a) / 2 == h * p + a / 2 && (h * Pow2(k) + a) % 2 == a % 2;
      OrHigh(h, a / 2, b / 2, k - 1);
      if h * Pow2(k) + a > 0 && a == 0 {
        OrZero(b / 2);
      }
    }
  }

  lemma OrZero(b: nat)
    ensures Or(0, b) == b && Or(b, 0) == b
  {
  }

  lemma {:induction false} Pow2Sum(a: nat, b: nat)
    ensures Pow2(a + b) == Pow2(a) * Pow2(b)
    decreases a
  {
    if a > 0 {
      Pow2Sum(a - 1, b);
      assert Pow2(a) * Pow2(b) == 2 * (Pow2(a - 1) * Pow2(b));
    }
  }

  /** x has k bits, and the first m of them (or all) are ones. */
  ghost predicate Ones(x: nat, k: nat, m: nat) {
    x < Pow2(k) && x >= Pow2(k) - Pow2(if m < k then k - m else 0)
  }

  lemma MulMono(p: nat, a: int, b: int)
    requires a <= b
    ensures p * a <= p * b
  {
    assert p * b == p * a + p * (b - a);
  }

  /** Division by p, as bounds. */
  ghost predicate Shifted(x: nat, y: nat, p: nat) {
    p * y <= x < p * y + p
  }

  lemma ShiftBelow(x: nat, y: nat, p: nat, q: nat)
    requires Shifted(x, y, p) && x < p * q
    ensures y < q
  {
    if y >= q {
      MulMono(p, q, y);
    }
  }

  lemma ShiftAbove(x: nat, y: nat, p: nat, q: int)
    requires Shifted(x, y, p) && x >= p * q
    ensures y >= q
  {
    if y < q {
      MulMono(p, y + 1, q);
    }
  }

  lemma ShiftAboveBy(x: nat, y: nat, p: nat, q: int, s: int)
    requires Shifted(x, y, p) && x >= p * q - p * s
    ensures y >= q - s
  {
    assert p * (q - s) == p * q - p * s;
    hide Shifted;
    ShiftAbove(x, y, p, q - s);
  }

  /** How many ones x shifted right begins with. */
  lemma ShiftedOnes(x: nat, y: nat, k: nat, m: nat)
    requires 1 <= m < k && Ones(x, k, m) && Shifted(x, y, Pow2(m))
    ensures y < Pow2(k - m) && y >= Pow2(k - m) - Pow2(if 2 * m < k then k - 2 * m else 0)
  {
    hide Pow2, Shifted;
    var d, p := k - m, Pow2(m);
    var q := Pow2(d);
    Pow2Sum(m, d);
    ShiftBelow(x, y, p, q);
    if 2 * m < k {
      var s := Pow2(d - m);
      Pow2Sum(m, d - m);
      ShiftAboveBy(x, y, p, q, s);
    } else {
      Smaller(d, m);
      Pow2Zero();
      ShiftAboveBy(x, y, p, q, 1);
    }
  }

  lemma Pow2Zero()
    ensures Pow2(0) == 1
  {
  }

  lemma {:induction false} Smaller(a: nat, b: nat)
    requires a <= b
    ensures Pow2(a) <= Pow2(b)
    decreases b
  {
    if a < b {
      Smaller(a, b - 1);
    }
  }

  lemma HighOnes(m: nat, d: nat)
    ensures (Pow2(m) - 1) * Pow2(d) == Pow2(m + d) - Pow2(d)
  {
    hide Pow2;
    Pow2Sum(m, d);
  }

  lemma ShiftSmaller(x: nat, y: nat, p: nat)
    requires Shifted(x, y, p) && p >= 1
    ensures y <= x
  {
    MulMono(y, 1, p);
  }

  /** x |= x >> m doubles the ones at the front. */
  lemma Smear(x: nat, y: nat, k: nat, m: nat)
    requires m >= 1 && k >= 1 && Ones(x, k, m) && Shifted(x, y, Pow2(m))
    ensures Ones(Or(x, y), k, 2 * m)
  {
    hide Pow2, Or, Shifted;
    if m >= k {
      Pow2Zero();
      ShiftSmaller(x, y, Pow2(m));
      OrBelow(x, y, k);
    } else {
      var d, h := k - m, Pow2(m) - 1;
      HighOnes(m, d);
      var r := x - h * Pow2(d);
      ShiftedOnes(x, y, k, m);
      OrHigh(h, r, y, d);
      OrBelow(r, y, d);
    }
  }

  /** The number of binary digits. */
  function Width(x: nat): (k: nat)
    ensures x < Pow2(k) && (x > 0 ==> k > 0 && x >= Pow2(k - 1))
  {
    if x == 0 then 0 else Width(x / 2) + 1
  }

  lemma Powers()
    ensures Pow2(1) == 2 && Pow2(2) == 4 && Pow2(4) == 16 && Pow2(8) == 256 && Pow2(16) == 65536
  {
    assert Pow2(4) == 16;
    assert Pow2(8) == 256;
    assert Pow2(12) == 4096;
    assert Pow2(16) == 65536;
  }

  lemma Thirty()
    ensures Pow2(30) == 0x4000_0000 && Pow2(32) == 0x1_0000_0000
  {
    Powers();
    Pow2Sum(16, 14);
    Pow2Sum(16, 16);
    Pow2Sum(8, 6);
    Pow2Sum(4, 2);
  }

  lemma {:induction false} WidthAtMost(x: nat, n: nat)
    requires x < Pow2(n)
    ensures Width(x) <= n
    decreases n
  {
    if n > 0 && x > 0 {
      WidthAtMost(x / 2, n - 1);
    }
  }

  /** The five steps on a number of at most 30 binary digits set every digit below the first. */
  lemma SmearAll(x0: nat, x1: nat, x2: nat, x3: nat, x4: nat, x5: nat)
    requires 0 < x0 < 0x4000_0000
    requires x1 == Or(x0, x0 / 2) && x2 == Or(x1, x1 / 4) && x3 == Or(x2, x2 / 16)
    requires x4 == Or(x3, x3 / 256) && x5 == Or(x4, x4 / 65536)
    ensures x5 == Pow2(Width(x0)) - 1
  {
    hide Pow2, Or, Width;
    var k := Width(x0);
    Powers();
    Thirty();
    WidthAtMost(x0, 30);
    HalfOnes(x0);
    Smear(x0, x0 / 2, k, 1);
    Smear(x1, x1 / 4, k, 2);
    Smear(x2, x2 / 16, k, 4);
    Smear(x3, x3 / 256, k, 8);
    Smear(x4, x4 / 65536, k, 16);
    Pow2Zero();
  }

  lemma HalfOnes(x: nat)
    requires x > 0
    ensures Width(x) >= 1 && Ones(x, Width(x), 1)
  {
  }

  /** pow2gt: for sizes up to 2^30 it is the least power of two that is not smaller. */
  method Pow2gt(x0: nat) returns (r: nat)
    requires 1 <= x0 <= 0x4000_0000
    ensures r == Pow2(Width(x0 - 1)) && x0 <= r <= 0x4000_0000
    ensures forall j: nat :: Pow2(j) >= x0 ==> r <= Pow2(j)
  {
    hide Or, Pow2, Width;
    var x: nat := x0 - 1;
    var x1: nat := Or(x, x / 2);
    var x2: nat := Or(x1, x1 / 4);
    var x3: nat := Or(x2, x2 / 16);
    var x4: nat := Or(x3, x3 / 256);
    var x5: nat := Or(x4, x4 / 65536);
    r := x5 + 1;
    if x > 0 {
      SmearAll(x, x1, x2, x3, x4, x5);
    } else {
      OrZero(0);
      assert r == Pow2(Width(0)) by { WidthZero(); }
    }
    Thirty();
    WidthAtMost(x, 30);
    Smaller(Width(x), 30);
    forall j: nat | Pow2(j) >= x0 ensures r <= Pow2(j) {
      WidthAtMost(x, j);
      Smaller(Width(x), j);
    }
  }

  lemma WidthZero()
    ensures Pow2(Width(0)) == 1
  {
  }
}
