/** 32-bit machine words as integers in range, powers of two, and the laws of quotients and remainders that
    word arithmetic rests on. */
module Words {

  const TWO_32: int := 0x1_0000_0000

  type Word = x: int | 0 <= x < 0x1_0000_0000

  function Pow2(k: nat): (p: nat)
    ensures p > 0
  {
    if k == 0 then 1 else 2 * Pow2(k - 1)
  }

  lemma {:induction false} Pow2Add(j: nat, k: nat)
    ensures Pow2(j + k) == Pow2(j) * Pow2(k)
  {
    if j == 0 {
    } else {
      Pow2Add(j - 1, k);
      assert Pow2(j + k) == 2 * (Pow2(j - 1) * Pow2(k)) == Pow2(j) * Pow2(k);
    }
  }

  lemma {:induction false} Pow2Monotone(j: nat, k: nat)
    requires j <= k
    ensures Pow2(j) <= Pow2(k)
  {
    if j == k {
    } else {
      Pow2Monotone(j, k - 1);
    }
  }

  lemma Pow2Values()
    ensures Pow2(4) == 16 && Pow2(5) == 32 && Pow2(8) == 256
    ensures Pow2(15) == 0x8000 && Pow2(16) == 0x1_0000
    ensures Pow2(30) == 0x4000_0000 && Pow2(31) == 0x8000_0000 && Pow2(32) == TWO_32
  {
    assert Pow2(4) == 16;
    assert Pow2(8) == 256 by { Pow2Add(4, 4); }
    assert Pow2(16) == 0x1_0000 by { Pow2Add(8, 8); }
    assert Pow2(32) == TWO_32 by { Pow2Add(16, 16); }
  }

  // ----- Quotients and remainders -----

  lemma DivModUnique(x: int, m: int, q: int, r: int)
    requires 0 < m && 0 <= r < m && x == m * q + r
    ensures x / m == q && x % m == r
  {
    var d := x / m - q;
    assert m * d == r - x % m;
    MultipleIsFar(m, d);
  }

  lemma MultipleIsFar(m: int, d: int)
    requires m > 0
    ensures d >= 1 ==> m * d >= m
    ensures d <= -1 ==> m * d <= -m
  {
  }

  lemma QuotientBounds(x: nat, m: nat)
    requires m > 0
    ensures 0 <= x / m <= x
  {
    assert x == m * (x / m) + x % m;
    if x / m >= 0 {
      MulMonotone(x / m, 1, m);
    } else {
      MultipleIsFar(m, x / m);
    }
  }

  lemma SmallMod(x: int, m: int)
    requires 0 <= x < m
    ensures x % m == x
  {
    DivModUnique(x, m, 0, x);
  }

  lemma SplitDigits(p: nat, s: nat, m: nat)
    requires s < m
    ensures 0 <= p * m
    ensures (p * m + s) / m == p && (p * m + s) % m == s
  {
    DivModUnique(p * m + s, m, p, s);
  }

  lemma ModAddMultiple(x: int, m: int, k: int)
    requires m > 0
    ensures (x + m * k) % m == x % m
  {
    assert x + m * k == m * (x / m + k) + x % m;
    DivModUnique(x + m * k, m, x / m + k, x % m);
  }

  /** Congruence is the same as a difference that the modulus divides. */
  lemma ModDifference(x: int, y: int, m: int)
    requires m > 0
    ensures x % m == y % m <==> (x - y) % m == 0
  {
    if x % m == y % m {
      assert x - y == m * (x / m - y / m) + 0;
      DivModUnique(x - y, m, x / m - y / m, 0);
    }
    if (x - y) % m == 0 {
      assert x == y + m * ((x - y) / m);
      ModAddMultiple(y, m, (x - y) / m);
    }
  }

  lemma ModOfMod(x: int, m: int, k: int)
    requires m > 0 && k > 0
    ensures (x % (m * k)) % m == x % m
  {
    var q := x / (m * k);
    assert x == x % (m * k) + m * (k * q) by {
      assert (m * k) * q == m * (k * q);
    }
    ModAddMultiple(x % (m * k), m, k * q);
  }

  /** Reducing modulo a larger power of two first changes nothing. */
  lemma ModPow2OfMod(x: int, j: nat, k: nat)
    requires j <= k
    ensures (x % Pow2(k)) % Pow2(j) == x % Pow2(j)
  {
    Pow2Add(j, k - j);
    ModOfMod(x, Pow2(j), Pow2(k - j));
  }

  lemma DoubleMod(x: int, m: int)
    requires m > 0
    ensures (2 * x) % (2 * m) == 2 * (x % m)
  {
    assert 2 * x == (2 * m) * (x / m) + 2 * (x % m);
    DivModUnique(2 * x, 2 * m, x / m, 2 * (x % m));
  }

  lemma DivByProduct(x: nat, a: nat, b: nat)
    requires a > 0 && b > 0
    ensures a * b > 0 && x / (a * b) == (x / a) / b
  {
    var q, r := x / a, x % a;
    var p, t := q / b, q % b;
    var m := a * b;
    assert m > 0;
    assert x == m * p + (a * t + r) by {
      assert x == a * q + r && q == b * p + t;
      assert a * (b * p + t) == (a * b) * p + a * t;
    }
    DigitsBelow(a, b, t, r);
    DivModUnique(x, m, p, a * t + r);
  }

  lemma DigitsBelow(a: nat, b: nat, t: nat, r: nat)
    requires t < b && r < a
    ensures 0 <= a * t + r < a * b
  {
    MulMonotone(a, t, b - 1);
    assert a * (b - 1) == a * b - a;
  }

  lemma MulMonotone(a: nat, x: int, y: int)
    requires x <= y
    ensures a * x <= a * y
  {
  }

  /** An odd factor neither creates nor destroys divisibility by a power of two. */
  lemma {:induction false} OddFactor(k: nat, x: int, c: int)
    requires c % 2 == 1
    ensures (x * c) % Pow2(k) == 0 <==> x % Pow2(k) == 0
  {
    if k == 0 {
    } else {
      var p := Pow2(k - 1);
      if x % 2 == 0 {
        var y := x / 2;
        assert x * c == 2 * (y * c);
        DoubleMod(y * c, p);
        DoubleMod(y, p);
        OddFactor(k - 1, y, c);
      } else {
        OddFactorParity(x, c);
        ModPow2OfMod(x * c, 1, k);
        ModPow2OfMod(x, 1, k);
      }
    }
  }

  lemma OddFactorParity(x: int, c: int)
    requires c % 2 == 1
    ensures (x * c) % 2 == x % 2
  {
    var h := c / 2;
    assert x * c == x + 2 * (x * h) by {
      assert x * (2 * h + 1) == x + 2 * (x * h);
    }
    ModAddMultiple(x, 2, x * h);
  }
}
