/** The C fallback of `__RBIT` and the rotation `__ROR` of CMSIS/cmsis_gcc.h. */
module BitReverse {
  import opened Words
  import opened Bits

  // ----- Reversal -----

  /** The low `n` bits of `x` in the opposite order. */
  function ReversedLow(x: Word, n: nat): (r: nat)
    ensures r < Pow2(n)
  {
    if n == 0 then 0 else 2 * ReversedLow(x, n - 1) + if Bit(x, n - 1) then 1 else 0
  }

  function Reversed(x: Word): Word {
    Pow2Values();
    ReversedLow(x, 32)
  }

  lemma {:induction false} ReversedLowBit(x: Word, n: nat, i: nat)
    requires i < n
    ensures Bit(ReversedLow(x, n), n - 1 - i) <==> Bit(x, i)
  {
    if i == n - 1 {
    } else {
      ReversedLowBit(x, n - 1, i);
    }
  }

  /** Reversing puts bit i at bit 31 - i, for every word. */
  lemma ReversedBit(x: Word, i: nat)
    requires i < 32
    ensures Bit(Reversed(x), 31 - i) <==> Bit(x, i)
  {
    ReversedLowBit(x, 32, i);
  }

  lemma ReversedTwice(x: Word)
    ensures Reversed(Reversed(x)) == x
  {
    forall i: nat | i < 32
      ensures Bit(Reversed(Reversed(x)), i) == Bit(x, i)
    {
      ReversedBit(x, i);
      ReversedBit(Reversed(x), 31 - i);
    }
    SameWord(Reversed(Reversed(x)), x);
  }

  // ----- The loop -----

  /** Bits 1..k of `x` reversed: what the loop has appended after k passes. */
  ghost function Appended(x: Word, k: nat): (r: nat)
    ensures r < Pow2(k)
  {
    if k == 0 then 0 else 2 * Appended(x, k - 1) + if Bit(x, k) then 1 else 0
  }

  /** The accumulator starts as the whole word, not just its lowest bit. */
  ghost function Accumulated(x: Word, k: nat): int {
    x * Pow2(k) + Appended(x, k)
  }

  lemma {:induction false} AppendedCompletes(x: Word, k: nat)
    ensures ReversedLow(x, k + 1) == (x % 2) * Pow2(k) + Appended(x, k)
  {
    if k == 0 {
      assert ReversedLow(x, 1) == 2 * ReversedLow(x, 0) + x % 2;
    } else {
      AppendedCompletes(x, k - 1);
      assert (x % 2) * Pow2(k) == 2 * ((x % 2) * Pow2(k - 1));
    }
  }

  lemma {:induction false} ShortWordReversed(x: Word, n: nat, m: nat)
    requires n <= m && x < Pow2(n)
    ensures ReversedLow(x, m) == ReversedLow(x, n) * Pow2(m - n)
  {
    if n == m {
    } else {
      ShortWordReversed(x, n, m - 1);
      HighBitsClear(n, x, m - 1);
      ScaleDoubles(ReversedLow(x, n), m - n);
    }
  }

  lemma PassAppends(x: Word, k: nat, result: Word, v: nat)
    requires result == Accumulated(x, k) % TWO_32
    requires v % 2 == 1 <==> Bit(x, k + 1)
    ensures OrWord(Shl(result, 1), And(v, 1)) == Accumulated(x, k + 1) % TWO_32
  {
    AndMask(v, 1);
    ShlOnce(Accumulated(x, k));
    AppendBit(Accumulated(x, k), v % 2);
    AccumulatedStep(x, k);
  }

  lemma AccumulatedStep(x: Word, k: nat)
    ensures Accumulated(x, k + 1) == 2 * Accumulated(x, k) + if Bit(x, k + 1) then 1 else 0
  {
    ScaleDoubles(x, k + 1);
  }

  lemma AppendBit(y: int, b: nat)
    requires b < 2
    ensures OrWord(2 * (y % 0x8000_0000), b) == (2 * y + b) % TWO_32
  {
    var low := y % 0x8000_0000;
    OrDisjoint(2 * low, low, b, 1);
    DivModUnique(2 * y + b, TWO_32, y / 0x8000_0000, 2 * low + b);
  }

  lemma ShlOnce(y: int)
    ensures Shl(y % TWO_32, 1) == 2 * (y % 0x8000_0000)
  {
    DoubleMod(y % TWO_32, 0x8000_0000);
    ModOfMod(y, 0x8000_0000, 2);
  }

  /** The last shift drops everything of the initial word but its lowest bit. */
  lemma LastShift(x: Word, k: nat, result: Word)
    requires k <= 31 && Shr(x, k + 1) == 0
    requires result == Accumulated(x, k) % TWO_32
    ensures Shl(result, 31 - k) == Reversed(x)
  {
    var p := Pow2(31 - k);
    BelowDivisor(x, Pow2(k + 1));
    ScaledResidue(Accumulated(x, k), p);
    AccumulatedShifted(x, k);
    DivModUnique(Accumulated(x, k) * p, TWO_32, x / 2, Reversed(x));
  }

  lemma AccumulatedShifted(x: Word, k: nat)
    requires k <= 31 && x < Pow2(k + 1)
    ensures Accumulated(x, k) * Pow2(31 - k) == Reversed(x) + TWO_32 * (x / 2)
  {
    assert Pow2(k) * Pow2(31 - k) == 0x8000_0000 by {
      Pow2Values();
      Pow2Add(k, 31 - k);
    }
    ReversedByAppended(x, k);
    ShiftAlgebra(x, Pow2(k), Pow2(31 - k), Appended(x, k));
  }

  lemma ShiftAlgebra(x: nat, q: nat, p: nat, t: nat)
    requires q * p == 0x8000_0000
    ensures (x * q + t) * p == (x % 2 * q + t) * p + TWO_32 * (x / 2)
  {
    Distribute(x, q, p, t);
    Distribute(x % 2, q, p, t);
  }

  lemma ReversedByAppended(x: Word, k: nat)
    requires k <= 31 && x < Pow2(k + 1)
    ensures Reversed(x) == ((x % 2) * Pow2(k) + Appended(x, k)) * Pow2(31 - k)
  {
    AppendedCompletes(x, k);
    ShortWordReversed(x, k + 1, 32);
  }

  lemma Distribute(x: int, q: int, p: int, t: int)
    ensures (x * q + t) * p == x * (q * p) + t * p
  {
  }

  lemma ScaledResidue(y: int, p: int)
    ensures (y % TWO_32 * p) % TWO_32 == (y * p) % TWO_32
  {
    var q, r := y / TWO_32, y % TWO_32;
    assert (TWO_32 * q + r) * p == r * p + TWO_32 * (q * p);
    ModAddMultiple(r * p, TWO_32, q * p);
  }

  method Rbit(value: Word) returns (result: Word)
    ensures result == Reversed(value)
  {
    var v: nat := value;
    var s := 31;
    result := value;
    v := Shr(v, 1);
    ghost var k := 0;
    FirstPass(value);
    while v != 0
      invariant 0 <= k <= 31 && s == 31 - k
      invariant v == Shr(value, k + 1)
      invariant result == Accumulated(value, k) % TWO_32
    {
      OneMorePass(value, k);
      PassAppends(value, k, result, v);
      result := Shl(result, 1);
      result := OrWord(result, And(v, 1));
      s := s - 1;
      ShiftOnce(value, k + 1);
      k := k + 1;
      v := Shr(v, 1);
    }
    LastShift(value, k, result);
    result := Shl(result, s);
  }

  lemma FirstPass(x: Word)
    ensures x == Accumulated(x, 0) % TWO_32
  {
    DivModUnique(x, TWO_32, 0, x);
  }

  lemma OneMorePass(x: Word, k: nat)
    requires k <= 31 && Shr(x, k + 1) != 0
    ensures k < 31
    ensures Shr(x, k + 1) % 2 == 1 <==> Bit(x, k + 1)
  {
    Pow2Values();
    ShrBit(x, k + 1, 0);
  }

  lemma ShiftOnce(x: nat, k: nat)
    ensures Shr(Shr(x, k), 1) == Shr(x, k + 1)
    ensures x > 0 && Shr(x, k) > 0 ==> Shr(Shr(x, k), 1) < Shr(x, k)
  {
    Pow2Add(k, 1);
    DivByProduct(x, Pow2(k), 2);
  }

  lemma BelowDivisor(x: nat, m: nat)
    requires m > 0 && x / m == 0
    ensures x < m
  {
    assert x == m * (x / m) + x % m;
  }

  // ----- Rotation -----

  function Ror(op1: Word, op2: nat): Word {
    var n := op2 % 32;
    if n == 0 then op1 else OrWord(Shr(op1, n), Shl(op1, 32 - n))
  }

  lemma RotatedIndex(i: nat, k: nat)
    requires i < 32
    ensures (i + k) % 32 == if i + k % 32 < 32 then i + k % 32 else i + k % 32 - 32
  {
    var r := i + k % 32;
    assert i + k == 32 * (k / 32) + r;
    if r < 32 {
      DivModUnique(i + k, 32, k / 32, r);
    } else {
      DivModUnique(i + k, 32, k / 32 + 1, r - 32);
    }
  }

  /** Rotating right by k moves bit (i + k) mod 32 to bit i. */
  lemma RorBit(x: Word, k: nat, i: nat)
    requires i < 32
    ensures Bit(Ror(x, k), i) <==> Bit(x, (i + k) % 32)
  {
    var n := k % 32;
    RotatedIndex(i, k);
    if n > 0 {
      ShiftedPairBit(x, n, i);
    }
  }

  lemma ShiftedPairBit(x: Word, n: nat, i: nat)
    requires 0 < n < 32 && i < 32
    ensures Bit(Or(Shr(x, n), Shl(x, 32 - n)), i) <==> Bit(x, if i + n < 32 then i + n else i + n - 32)
  {
    OrBit(Shr(x, n), Shl(x, 32 - n), i);
    ShrBit(x, n, i);
    ShlBit(x, 32 - n, i);
    if i + n >= 32 {
      Pow2Values();
      HighBitsClear(32, x, i + n);
    }
  }

  /** Rotations add up modulo 32. */
  lemma RorAdds(x: Word, j: nat, k: nat)
    ensures Ror(Ror(x, j), k) == Ror(x, j + k)
  {
    forall i: nat | i < 32
      ensures Bit(Ror(Ror(x, j), k), i) == Bit(Ror(x, j + k), i)
    {
      RorAddsBit(x, j, k, i);
    }
    SameWord(Ror(Ror(x, j), k), Ror(x, j + k));
  }

  lemma RorAddsBit(x: Word, j: nat, k: nat, i: nat)
    requires i < 32
    ensures Bit(Ror(Ror(x, j), k), i) == Bit(Ror(x, j + k), i)
  {
    var r := (i + k) % 32;
    RorBit(Ror(x, j), k, i);
    RorBit(x, j, r);
    RorBit(x, j + k, i);
    ModAddMultiple(r + j, 32, (i + k) / 32);
    assert r + j + 32 * ((i + k) / 32) == i + (j + k);
  }

  /** Reversal turns a rotation round. */
  lemma ReversedRor(x: Word, k: nat)
    ensures Reversed(Ror(x, k)) == Ror(Reversed(x), (32 - k % 32) % 32)
  {
    var back := (32 - k % 32) % 32;
    forall i: nat | i < 32
      ensures Bit(Reversed(Ror(x, k)), i) == Bit(Ror(Reversed(x), back), i)
    {
      ReversedRorBit(x, k, back, i);
    }
    SameWord(Reversed(Ror(x, k)), Ror(Reversed(x), back));
  }

  lemma ReversedRorBit(x: Word, k: nat, back: nat, i: nat)
    requires i < 32 && back == (32 - k % 32) % 32
    ensures Bit(Reversed(Ror(x, k)), i) == Bit(Ror(Reversed(x), back), i)
  {
    var j := (31 - i + k) % 32;
    MirrorIndex(k, back, i);
    ReversedBit(Ror(x, k), 31 - i);
    RorBit(x, k, 31 - i);
    ReversedBit(x, j);
    RorBit(Reversed(x), back, i);
  }

  lemma MirrorIndex(k: nat, back: nat, i: nat)
    requires i < 32 && back == (32 - k % 32) % 32
    ensures (i + back) % 32 == 31 - (31 - i + k) % 32
  {
    RotatedIndex(31 - i, k);
    RotatedIndex(i, back);
  }
}
