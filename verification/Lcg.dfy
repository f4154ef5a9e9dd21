/** The linear congruential step of platform/main_networking.c and its full period. */
module Lcg {
  import opened Words

  const MULTIPLIER: int := 0x015a4e35

  function Step(s: Word): Word {
    (MULTIPLIER * s + 1) % TWO_32
  }

  /** Zero steps to one, and a state one higher steps to one that is higher by the multiplier: together they
      fix the step on every state. */
  lemma StepFromZero()
    ensures Step(0) == 1
  {
  }

  lemma StepOfNext(s: Word)
    ensures Step((s + 1) % TWO_32) == (Step(s) + 0x015a4e35) % TWO_32
  {
    StepOfResidue(s + 1);
    StepOfResidue(s);
    SmallMod(s, TWO_32);
    var x := 0x015a4e35 * s + 1;
    ModAddMultiple(x % TWO_32 + 0x015a4e35, TWO_32, x / TWO_32);
  }

  /** The generator state after `n` draws from state `s`. */
  function Draws(s: Word, n: nat): Word {
    if n == 0 then s else Step(Draws(s, n - 1))
  }

  lemma {:induction false} DrawsAdd(s: Word, m: nat, n: nat)
    ensures Draws(s, m + n) == Draws(Draws(s, m), n)
  {
    if n == 0 {
    } else {
      DrawsAdd(s, m, n - 1);
    }
  }

  // ----- The geometric sum 1 + a + ... + a^(n-1), for a multiplier a that is 1 modulo 4 -----

  ghost function Geo(a: nat, n: nat): nat {
    if n == 0 then 0 else a * Geo(a, n - 1) + 1
  }

  lemma {:induction false} GeoAdd(a: nat, m: nat, n: nat)
    ensures Geo(a, m + n) == Geo(a, m) * ((a - 1) * Geo(a, n) + 1) + Geo(a, n)
  {
    if n == 0 {
    } else {
      GeoAdd(a, m, n - 1);
      GeoAddAlgebra(a, Geo(a, m), Geo(a, n - 1));
    }
  }

  lemma GeoAddAlgebra(a: int, x: int, g: int)
    ensures a * (x * ((a - 1) * g + 1) + g) + 1 == x * ((a - 1) * (a * g + 1) + 1) + (a * g + 1)
  {
  }

  /** Doubling the number of terms multiplies the sum by twice an odd number. */
  lemma GeoDouble(a: nat, m: nat) returns (h: int)
    requires a % 4 == 1
    ensures Geo(a, 2 * m) == 2 * (Geo(a, m) * (2 * h + 1))
  {
    GeoAdd(a, m, m);
    h := a / 4 * Geo(a, m);
    GeoDoubleAlgebra(a, a / 4, Geo(a, m));
  }

  lemma GeoDoubleAlgebra(a: int, d: int, g: int)
    requires a == 4 * d + 1
    ensures g * ((a - 1) * g + 1) + g == 2 * (g * (2 * (d * g) + 1))
  {
  }

  lemma {:induction false} GeoParity(a: nat, n: nat)
    requires a % 2 == 1
    ensures Geo(a, n) % 2 == n % 2
  {
    if n == 0 {
    } else {
      GeoParity(a, n - 1);
      AffineParity(a, Geo(a, n - 1), n - 1);
    }
  }

  lemma AffineParity(a: nat, g: nat, n: nat)
    requires a % 2 == 1 && g % 2 == n % 2
    ensures (a * g + 1) % 2 == (n + 1) % 2
  {
    OddFactorParity(g, a);
    var w := g * a;
    assert w % 2 == n % 2;
  }

  /** The sum of n terms and n itself are divisible by the same powers of two. */
  lemma {:induction false} GeoValuation(a: nat, k: nat, n: nat)
    requires a % 4 == 1
    ensures Geo(a, n) % Pow2(k) == 0 <==> n % Pow2(k) == 0
  {
    if k == 0 {
    } else {
      if n % 2 == 0 {
        GeoValuation(a, k - 1, n / 2);
        GeoValuationEven(a, k - 1, n / 2);
      } else {
        GeoValuationOdd(a, k, n);
      }
    }
  }

  lemma GeoValuationEven(a: nat, k: nat, m: nat)
    requires a % 4 == 1
    requires Geo(a, m) % Pow2(k) == 0 <==> m % Pow2(k) == 0
    ensures Geo(a, 2 * m) % Pow2(k + 1) == 0 <==> (2 * m) % Pow2(k + 1) == 0
  {
    var h := GeoDouble(a, m);
    DoubledValuation(k, Geo(a, m), 2 * h + 1, m);
  }

  lemma GeoValuationOdd(a: nat, k: nat, n: nat)
    requires a % 4 == 1 && n % 2 == 1 && k > 0
    ensures Geo(a, n) % Pow2(k) != 0 && n % Pow2(k) != 0
  {
    GeoParity(a, n);
    OddIsNoMultiple(k, Geo(a, n));
    OddIsNoMultiple(k, n);
  }

  lemma DoubledValuation(k: nat, g: int, c: int, m: int)
    requires c % 2 == 1
    requires g % Pow2(k) == 0 <==> m % Pow2(k) == 0
    ensures (2 * (g * c)) % Pow2(k + 1) == 0 <==> (2 * m) % Pow2(k + 1) == 0
  {
    OddFactor(k, g, c);
    DoubleMod(g * c, Pow2(k));
    DoubleMod(m, Pow2(k));
  }

  lemma OddIsNoMultiple(k: nat, x: int)
    requires k > 0 && x % 2 == 1
    ensures x % Pow2(k) != 0
  {
    ModPow2OfMod(x, 1, k);
  }

  /** `n` unwrapped steps move `s` by the sum times this odd number. */
  ghost function OddPart(a: nat, s: nat): (c: nat)
    requires a % 4 == 1
    ensures c % 2 == 1
  {
    assert (a - 1) * s == 2 * (a / 2 * s) by { assert a - 1 == 2 * (a / 2); }
    (a - 1) * s + 1
  }

  ghost function Travel(s: Word, n: nat): int {
    Geo(MULTIPLIER, n) * OddPart(MULTIPLIER, s)
  }

  lemma UnwrappedStep(a: nat, s: nat, g: nat)
    requires a % 4 == 1
    ensures s + (a * g + 1) * OddPart(a, s) == a * (s + g * OddPart(a, s)) + 1
  {
  }

  /** Wrapping before a step or after it is the same. */
  lemma StepOfResidue(x: int)
    ensures Step(x % TWO_32) == (MULTIPLIER * x + 1) % TWO_32
  {
    var q, r := x / TWO_32, x % TWO_32;
    assert MULTIPLIER * x + 1 == (MULTIPLIER * r + 1) + TWO_32 * (MULTIPLIER * q);
    ModAddMultiple(MULTIPLIER * r + 1, TWO_32, MULTIPLIER * q);
  }

  lemma TravelStep(s: Word, n: nat)
    ensures s + Travel(s, n + 1) == MULTIPLIER * (s + Travel(s, n)) + 1
  {
    UnwrappedStep(MULTIPLIER, s, Geo(MULTIPLIER, n));
  }

  lemma ClosedFormStep(s: Word, n: nat)
    requires Draws(s, n) == (s + Travel(s, n)) % TWO_32
    ensures Draws(s, n + 1) == (s + Travel(s, n + 1)) % TWO_32
  {
    TravelStep(s, n);
    StepOfResidue(s + Travel(s, n));
  }

  lemma {:induction false} DrawsClosedForm(s: Word, n: nat)
    ensures Draws(s, n) == (s + Travel(s, n)) % TWO_32
  {
    if n == 0 {
      assert Travel(s, 0) == 0;
    } else {
      DrawsClosedForm(s, n - 1);
      ClosedFormStep(s, n - 1);
    }
  }

  // ----- Periods -----

  /** The distance covered by n draws, modulo any power of two up to the word size. */
  lemma DrawsResidue(k: nat, s: Word, n: nat)
    requires k <= 32
    ensures Draws(s, n) % Pow2(k) == (s + Travel(s, n)) % Pow2(k)
  {
    DrawsClosedForm(s, n);
    Pow2Values();
    ModPow2OfMod(s + Travel(s, n), k, 32);
  }

  lemma MovedBy(s: int, moved: int, m: int)
    requires m > 0
    ensures (s + moved) % m == s % m <==> moved % m == 0
  {
    ModDifference(s + moved, s, m);
  }

  /** The low k bits of the state return to where they were exactly after multiples of 2^k draws. */
  lemma ResiduePeriod(k: nat, s: Word, n: nat)
    requires k <= 32
    ensures Draws(s, n) % Pow2(k) == s % Pow2(k) <==> n % Pow2(k) == 0
  {
    DrawsResidue(k, s, n);
    MovedBy(s, Travel(s, n), Pow2(k));
    OddFactor(k, Geo(MULTIPLIER, n), OddPart(MULTIPLIER, s));
    GeoValuation(MULTIPLIER, k, n);
  }

  /** Two positions of one orbit agree on the low k bits exactly when they are congruent modulo 2^k. */
  lemma ResidueInjective(k: nat, s: Word, m: nat, n: nat)
    requires k <= 32
    ensures Draws(s, m) % Pow2(k) == Draws(s, n) % Pow2(k) <==> m % Pow2(k) == n % Pow2(k)
  {
    if m <= n {
      DrawsAdd(s, m, n - m);
      ResiduePeriod(k, Draws(s, m), n - m);
      ModDifference(n, m, Pow2(k));
    } else {
      DrawsAdd(s, n, m - n);
      ResiduePeriod(k, Draws(s, n), m - n);
      ModDifference(m, n, Pow2(k));
    }
  }

  /** Full period: the state recurs exactly every 2^32 draws, from every seed. */
  lemma FullPeriod(s: Word, n: nat)
    ensures Draws(s, n) == s <==> n % TWO_32 == 0
  {
    ResiduePeriod(32, s, n);
    Pow2Values();
    DivModUnique(s, TWO_32, 0, s);
    DivModUnique(Draws(s, n), TWO_32, 0, Draws(s, n));
  }

  /** 2^k draws leave the low k bits alone and flip bit k. */
  lemma FlipBit(k: nat, s: Word)
    requires k < 32
    ensures Draws(s, Pow2(k)) % Pow2(k + 1) == (s + Pow2(k)) % Pow2(k + 1)
  {
    var p := Pow2(k);
    var moved := Travel(s, p);
    DrawsResidue(k + 1, s, p);
    HalfPeriodTravel(k, s);
    HalfwayShift(s, moved, p);
  }

  lemma HalfPeriodTravel(k: nat, s: Word)
    ensures Travel(s, Pow2(k)) % Pow2(k) == 0 && Travel(s, Pow2(k)) % Pow2(k + 1) != 0
  {
    var p := Pow2(k);
    var g, c := Geo(MULTIPLIER, p), OddPart(MULTIPLIER, s);
    DivModUnique(p, p, 1, 0);
    DivModUnique(p, Pow2(k + 1), 0, p);
    GeoValuation(MULTIPLIER, k, p);
    GeoValuation(MULTIPLIER, k + 1, p);
    OddFactor(k, g, c);
    OddFactor(k + 1, g, c);
  }

  /** Adding an odd multiple of p is adding p, modulo 2p. */
  lemma HalfwayShift(s: int, x: int, p: int)
    requires p > 0 && x % p == 0 && x % (2 * p) != 0
    ensures (s + x) % (2 * p) == (s + p) % (2 * p)
  {
    HalfwayResidue(x, p);
    ModAddMultiple(s + p, 2 * p, x / (2 * p));
  }

  lemma HalfwayResidue(x: int, p: int)
    requires p > 0 && x % p == 0 && x % (2 * p) != 0
    ensures x % (2 * p) == p
  {
    var q, m := x / p, 2 * p;
    var h := q / 2;
    assert x == p * q;
    assert m * h == p * (2 * h);
    if q == 2 * h {
      DivModUnique(x, m, h, 0);
      assert false;
    }
    assert p * (2 * h + 1) == p * (2 * h) + p;
    DivModUnique(x, m, h, p);
  }

  // ----- Every state is on every orbit -----

  /** How many draws from `s` until the low `k` bits are those of `t`, found one bit at a time. */
  ghost function Reach(k: nat, s: Word, t: Word): (n: nat)
    requires k <= 32
    ensures n < Pow2(k)
    ensures Draws(s, n) % Pow2(k) == t % Pow2(k)
  {
    if k == 0 then 0 else
      var n := Reach(k - 1, s, t);
      var p := Pow2(k - 1);
      if Draws(s, n) % Pow2(k) == t % Pow2(k) then n
      else
        ReachNextBit(k - 1, s, n, t);
        n + p
  }

  lemma ReachNextBit(k: nat, s: Word, n: nat, t: Word)
    requires k < 32
    requires Draws(s, n) % Pow2(k) == t % Pow2(k)
    requires Draws(s, n) % Pow2(k + 1) != t % Pow2(k + 1)
    ensures Draws(s, n + Pow2(k)) % Pow2(k + 1) == t % Pow2(k + 1)
  {
    var u, p := Draws(s, n), Pow2(k);
    DrawsAdd(s, n, p);
    FlipBit(k, u);
    ModDifference(t, u, p);
    ModDifference(t, u, 2 * p);
    HalfwayShift(u, t - u, p);
  }

  /** Number of draws from `s` to `t`. */
  ghost function Distance(s: Word, t: Word): (n: nat)
    ensures n < TWO_32
    ensures Draws(s, n) == t
  {
    Pow2Values();
    var n := Reach(32, s, t);
    assert Draws(s, n) == t by {
      DivModUnique(t, TWO_32, 0, t);
      DivModUnique(Draws(s, n), TWO_32, 0, Draws(s, n));
    }
    n
  }

  /** Every state is met exactly once in any 2^32 consecutive draws. */
  lemma VisitedExactlyOnce(s: Word, t: Word)
    ensures exists n: nat ::
      && n < TWO_32 && Draws(s, n) == t
      && forall m: nat :: m < TWO_32 && Draws(s, m) == t ==> m == n
  {
    var n := Distance(s, t);
    forall m: nat | m < TWO_32 && Draws(s, m) == t
      ensures m == n
    {
      DistanceUnique(s, t, m);
    }
  }

  lemma DistanceUnique(s: Word, t: Word, m: nat)
    requires m < TWO_32 && Draws(s, m) == t
    ensures m == Distance(s, t)
  {
    var n := Distance(s, t);
    assert m % Pow2(32) == n % Pow2(32) by { ResidueInjective(32, s, m, n); }
    Pow2Values();
    DivModUnique(m, TWO_32, 0, m);
    DivModUnique(n, TWO_32, 0, n);
  }

  /** One draw brings every other state one step closer. */
  lemma DistanceFalls(s: Word, t: Word)
    requires s != t
    ensures Distance(s, t) > 0 && Distance(Step(s), t) == Distance(s, t) - 1
  {
    var n := Distance(s, t);
    DrawsAdd(s, 1, n - 1);
    DistanceUnique(Step(s), t, n - 1);
  }
}
