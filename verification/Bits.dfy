/** The C operators `<<`, `>>`, `&`, `|` and `~` on 32-bit words, each characterised bit by bit with
    symbolic widths and shift amounts, and the principle that a word is determined by its bits. */
module Bits {
  import opened Words

  const ALL_ONES: Word := 0xFFFF_FFFF

  predicate Bit(x: nat, i: nat) {
    if i == 0 then x % 2 == 1 else Bit(x / 2, i - 1)
  }

  function And(x: nat, y: nat): (r: nat)
    ensures r <= x && r <= y
  {
    if x == 0 || y == 0 then 0
    else 2 * And(x / 2, y / 2) + if x % 2 == 1 && y % 2 == 1 then 1 else 0
  }

  function Or(x: nat, y: nat): (r: nat)
    ensures x <= r && y <= r
  {
    if x == 0 then y else if y == 0 then x
    else 2 * Or(x / 2, y / 2) + if x % 2 == 1 || y % 2 == 1 then 1 else 0
  }

  function Not(x: Word): Word {
    ALL_ONES - x
  }

  function Shl(x: Word, k: nat): Word {
    x * Pow2(k) % TWO_32
  }

  function Shr(x: nat, k: nat): (r: nat)
    ensures r <= x
  {
    QuotientBounds(x, Pow2(k));
    x / Pow2(k)
  }

  // ----- What each operator does to one bit -----

  lemma {:induction false} ZeroBit(i: nat)
    ensures !Bit(0, i)
  {
    if i == 0 {
    } else {
      ZeroBit(i - 1);
    }
  }

  lemma {:induction false} AndBit(x: nat, y: nat, i: nat)
    ensures Bit(And(x, y), i) <==> Bit(x, i) && Bit(y, i)
  {
    if x == 0 || y == 0 {
      ZeroBit(i);
    } else if i == 0 {
    } else {
      AndBit(x / 2, y / 2, i - 1);
    }
  }

  lemma {:induction false} OrBit(x: nat, y: nat, i: nat)
    ensures Bit(Or(x, y), i) <==> Bit(x, i) || Bit(y, i)
  {
    if x == 0 || y == 0 {
      ZeroBit(i);
    } else if i == 0 {
    } else {
      OrBit(x / 2, y / 2, i - 1);
    }
  }

  lemma HalfComplement(p: nat, x: nat)
    requires x < 2 * p
    ensures (2 * p - 1 - x) / 2 == p - 1 - x / 2 && (2 * p - 1 - x) % 2 == 1 - x % 2
  {
  }

  lemma {:induction false} ComplementBit(n: nat, x: nat, i: nat)
    requires x < Pow2(n) && i < n
    ensures Bit(Pow2(n) - 1 - x, i) <==> !Bit(x, i)
  {
    HalfComplement(Pow2(n - 1), x);
    if i == 0 {
    } else {
      ComplementBit(n - 1, x / 2, i - 1);
    }
  }

  lemma NotBit(x: Word, i: nat)
    requires i < 32
    ensures Bit(Not(x), i) <==> !Bit(x, i)
  {
    Pow2Values();
    ComplementBit(32, x, i);
  }

  lemma {:induction false} ShrBit(x: nat, k: nat, i: nat)
    ensures Bit(Shr(x, k), i) <==> Bit(x, i + k)
  {
    if k == 0 {
    } else {
      DivByProduct(x, 2, Pow2(k - 1));
      ShrBit(x / 2, k - 1, i);
    }
  }

  lemma {:induction false} ScaleBit(x: nat, k: nat, i: nat)
    ensures x * Pow2(k) >= 0
    ensures Bit(x * Pow2(k), i) <==> i >= k && Bit(x, i - k)
  {
    if k == 0 {
    } else {
      assert x * Pow2(k) == 2 * (x * Pow2(k - 1));
      if i == 0 {
      } else {
        ScaleBit(x, k - 1, i - 1);
      }
    }
  }

  lemma {:induction false} ModBit(x: nat, n: nat, i: nat)
    ensures Bit(x % Pow2(n), i) <==> i < n && Bit(x, i)
  {
    if n == 0 {
      ZeroBit(i);
    } else {
      HalfOfMod(x, Pow2(n - 1));
      if i == 0 {
      } else {
        ModBit(x / 2, n - 1, i - 1);
      }
    }
  }

  lemma HalfOfMod(x: nat, m: nat)
    requires m > 0
    ensures x % (2 * m) / 2 == x / 2 % m && x % (2 * m) % 2 == x % 2
  {
    var h, b := x / 2, x % 2;
    assert x == (2 * m) * (h / m) + (2 * (h % m) + b);
    DivModUnique(x, 2 * m, h / m, 2 * (h % m) + b);
  }

  lemma ShlBit(x: Word, k: nat, i: nat)
    ensures Bit(Shl(x, k), i) <==> k <= i < 32 && Bit(x, i - k)
  {
    Pow2Values();
    ScaleBit(x, k, i);
    ModBit(x * Pow2(k), 32, i);
  }

  lemma PowerBit(k: nat, i: nat)
    ensures Bit(Pow2(k), i) <==> i == k
  {
    ScaleBit(1, k, i);
    if i > k {
      assert 1 / 2 == 0;
      ZeroBit(i - k - 1);
    }
  }

  /** The one-bit mask `1UL << k`. */
  lemma OneShifted(k: nat)
    requires k < 32
    ensures Shl(1, k) == Pow2(k)
  {
    Pow2Values();
    Pow2Monotone(k, 31);
    DivModUnique(Pow2(k), TWO_32, 0, Pow2(k));
  }

  // ----- Words are their bits -----

  lemma {:induction false} HighBitsClear(n: nat, x: nat, i: nat)
    requires x < Pow2(n) && n <= i
    ensures !Bit(x, i)
  {
    if n == 0 {
      ZeroBit(i);
    } else {
      HighBitsClear(n - 1, x / 2, i - 1);
    }
  }

  lemma {:induction false} SameBits(n: nat, x: nat, y: nat)
    requires x < Pow2(n) && y < Pow2(n)
    requires forall i: nat :: i < n ==> Bit(x, i) == Bit(y, i)
    ensures x == y
  {
    if n == 0 {
    } else {
      forall i: nat | i < n - 1
        ensures Bit(x / 2, i) == Bit(y / 2, i)
      {
        assert Bit(x, i + 1) == Bit(y, i + 1);
      }
      SameBits(n - 1, x / 2, y / 2);
      assert Bit(x, 0) == Bit(y, 0);
    }
  }

  lemma SameWord(x: Word, y: Word)
    requires forall i: nat :: i < 32 ==> Bit(x, i) == Bit(y, i)
    ensures x == y
  {
    Pow2Values();
    SameBits(32, x, y);
  }

  lemma {:induction false} OrBound(n: nat, x: nat, y: nat)
    requires x < Pow2(n) && y < Pow2(n)
    ensures Or(x, y) < Pow2(n)
  {
    if n == 0 || x == 0 || y == 0 {
    } else {
      OrBound(n - 1, x / 2, y / 2);
    }
  }

  function OrWord(x: Word, y: Word): (r: Word)
    ensures r == Or(x, y)
  {
    Pow2Values();
    OrBound(32, x, y);
    Or(x, y)
  }

  // ----- Masks and disjoint fields -----

  /** `x & ((1 << n) - 1)` is the remainder modulo 2^n. */
  lemma AndMask(x: nat, n: nat)
    ensures And(x, Pow2(n) - 1) == x % Pow2(n)
  {
    forall i: nat | i < n
      ensures Bit(And(x, Pow2(n) - 1), i) == Bit(x % Pow2(n), i)
    {
      AndBit(x, Pow2(n) - 1, i);
      ZeroBit(i);
      ComplementBit(n, 0, i);
      ModBit(x, n, i);
    }
    SameBits(n, And(x, Pow2(n) - 1), x % Pow2(n));
  }

  /** Or-ing a field above `n` clear low bits adds it. */
  lemma {:induction false} OrDisjoint(field: nat, high: nat, low: nat, n: nat)
    requires field == high * Pow2(n) && low < Pow2(n)
    ensures Or(field, low) == field + low
  {
    if n == 0 {
    } else {
      var half := high * Pow2(n - 1);
      ScaleDoubles(high, n);
      OrDisjoint(half, high, low / 2, n - 1);
      OrEven(half, low);
    }
  }

  lemma ScaleDoubles(high: nat, n: nat)
    requires n > 0
    ensures high * Pow2(n - 1) >= 0 && high * Pow2(n) == 2 * (high * Pow2(n - 1))
  {
  }

  lemma OrEven(h: nat, low: nat)
    ensures Or(2 * h, low) == 2 * Or(h, low / 2) + low % 2
  {
  }
}
