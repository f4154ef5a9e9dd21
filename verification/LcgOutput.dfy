/** The 15-bit output stream of the generator: its exact period, how often each value occurs in a
    period, and how long a run of rejected outputs can be. */
module LcgOutput {
  import opened Words
  import opened Lcg

  const OUTPUTS: int := 0x8000
  const LOW_STATES: int := 0x1_0000
  const PERIOD: int := 0x8000_0000

  /** Bits 16..30 of the state. */
  function Out(s: Word): (v: nat)
    ensures v < OUTPUTS
  {
    s / 0x1_0000 % 0x8000
  }

  /** The value emitted by the i-th draw after state `s`. */
  function Output(s: Word, i: nat): (v: nat)
    ensures v < OUTPUTS
  {
    Out(Draws(s, i))
  }

  lemma OutIsResidueQuotient(s: Word)
    ensures Out(s) == s % Pow2(31) / 0x1_0000
    ensures s % Pow2(31) == Out(s) * LOW_STATES + s % LOW_STATES
  {
    Pow2Values();
    var high := s / LOW_STATES;
    assert s == PERIOD * (high / OUTPUTS) + (Out(s) * LOW_STATES + s % LOW_STATES);
    DivModUnique(s, PERIOD, high / OUTPUTS, Out(s) * LOW_STATES + s % LOW_STATES);
    DivModUnique(Out(s) * LOW_STATES + s % LOW_STATES, LOW_STATES, Out(s), s % LOW_STATES);
  }

  // ----- Period -----

  /** Half a period later every output comes back with bit 14 flipped. */
  lemma HalfPeriodFlip(s: Word, i: nat)
    ensures Output(s, i + 0x4000_0000)
         == if Output(s, i) < 0x4000 then Output(s, i) + 0x4000 else Output(s, i) - 0x4000
  {
    Pow2Values();
    DrawsAdd(s, i, 0x4000_0000);
    FlipBit(30, Draws(s, i));
    HalfPeriodShift(Draws(s, i), Draws(s, i + 0x4000_0000));
  }

  lemma HalfPeriodShift(u: Word, w: Word)
    requires w % PERIOD == (u + 0x4000_0000) % PERIOD
    ensures Out(w) == if Out(u) < 0x4000 then Out(u) + 0x4000 else Out(u) - 0x4000
  {
    Pow2Values();
    OutIsResidueQuotient(u);
    OutIsResidueQuotient(w);
    var q, v, low := u / PERIOD, Out(u), u % LOW_STATES;
    var carry, v' := if v < 0x4000 then 0 else 1, if v < 0x4000 then v + 0x4000 else v - 0x4000;
    DivModUnique(u + 0x4000_0000, PERIOD, q + carry, v' * LOW_STATES + low);
    DivModUnique(w % PERIOD, LOW_STATES, v', low);
  }

  ghost predicate IsOutputPeriod(s: Word, p: nat) {
    forall i: nat :: Output(s, i + p) == Output(s, i)
  }

  /** The output stream repeats after p draws exactly when 2^31 divides p, whatever the seed. */
  lemma OutputPeriod(s: Word, p: nat)
    ensures IsOutputPeriod(s, p) <==> p % PERIOD == 0
  {
    Pow2Values();
    if p % PERIOD == 0 {
      forall i: nat
        ensures Output(s, i + p) == Output(s, i)
      {
        SameResidueSameOutput(s, i + p, i);
      }
    } else if IsOutputPeriod(s, p) {
      NoShorterPeriod(0, s, p);
    }
  }

  lemma SameResidueSameOutput(s: Word, m: nat, n: nat)
    requires m % PERIOD == n % PERIOD
    ensures Output(s, m) == Output(s, n)
  {
    Pow2Values();
    ResidueInjective(31, s, m, n);
    OutIsResidueQuotient(Draws(s, m));
    OutIsResidueQuotient(Draws(s, n));
  }

  /** Doubling a period that is no multiple of 2^31 ends at a period of half a cycle, which the flip rules out. */
  lemma {:induction false} NoShorterPeriod(k: nat, s: Word, p: nat)
    requires k <= 30 && p % Pow2(k) == 0
    requires p % PERIOD != 0 && IsOutputPeriod(s, p)
    ensures false
    decreases 30 - k
  {
    Pow2Values();
    if p % Pow2(30) == 0 {
      HalfwayResidue(p, Pow2(30));
      DivModUnique(Pow2(30), PERIOD, 0, Pow2(30));
      SameResidueSameOutput(s, p, 0x4000_0000);
      assert Output(s, 0 + p) == Output(s, 0);
      HalfPeriodFlip(s, 0);
    } else {
      DoubleMod(p, Pow2(k));
      DoubleMod(p, Pow2(30));
      forall i: nat
        ensures Output(s, i + 2 * p) == Output(s, i)
      {
        assert Output(s, (i + p) + p) == Output(s, i + p) == Output(s, i);
      }
      NoShorterPeriod(k + 1, s, 2 * p);
    }
  }

  // ----- Frequencies -----

  /** Positions of one period where the output is `v` and the low 16 state bits are below `n`. */
  ghost function Fiber(s: Word, v: nat, n: nat): (f: set<nat>)
    requires v < OUTPUTS && n <= LOW_STATES
    ensures |f| == n
    ensures forall i: nat :: i in f <==> i < PERIOD && Output(s, i) == v && Draws(s, i) % LOW_STATES < n
  {
    if n == 0 then {} else
      var rest := Fiber(s, v, n - 1);
      var target := v * LOW_STATES + (n - 1);
      Pow2Values();
      var i := Reach(31, s, target);
      FiberPosition(s, v, n - 1, i);
      rest + {i}
  }

  lemma FiberPosition(s: Word, v: nat, low: nat, i: nat)
    requires v < OUTPUTS && low < LOW_STATES && i < PERIOD
    requires Draws(s, i) % Pow2(31) == (v * LOW_STATES + low) % Pow2(31)
    ensures Output(s, i) == v && Draws(s, i) % LOW_STATES == low
    ensures forall j: nat :: j < PERIOD && Output(s, j) == v && Draws(s, j) % LOW_STATES == low ==> j == i
  {
    Pow2Values();
    var target := v * LOW_STATES + low;
    DivModUnique(target, PERIOD, 0, target);
    OutIsResidueQuotient(Draws(s, i));
    DivModUnique(target, LOW_STATES, v, low);
    forall j: nat | j < PERIOD && Output(s, j) == v && Draws(s, j) % LOW_STATES == low
      ensures j == i
    {
      SamePosition(s, i, j);
    }
  }

  lemma SamePosition(s: Word, i: nat, j: nat)
    requires i < PERIOD && j < PERIOD && Output(s, i) == Output(s, j)
    requires Draws(s, i) % LOW_STATES == Draws(s, j) % LOW_STATES
    ensures i == j
  {
    Pow2Values();
    OutIsResidueQuotient(Draws(s, i));
    OutIsResidueQuotient(Draws(s, j));
    ResidueInjective(31, s, i, j);
    DivModUnique(i, PERIOD, 0, i);
    DivModUnique(j, PERIOD, 0, j);
  }

  /** The positions of one period at which the stream shows `v`. */
  ghost function Positions(s: Word, v: nat): set<nat> {
    set i: nat | i < PERIOD && Output(s, i) == v
  }

  /** Each value occurs exactly 2^16 times in any 2^31 consecutive draws. */
  lemma EachOutputEquallyOften(s: Word, v: nat)
    requires v < OUTPUTS
    ensures |Positions(s, v)| == 0x1_0000
  {
    assert Positions(s, v) == Fiber(s, v, LOW_STATES);
  }

  // ----- Rejected outputs -----

  predicate Rejected(v: nat, modulus: nat, floor: nat)
    requires modulus > 0
  {
    v % modulus < floor
  }

  /** How many of the numbers below `n` leave a remainder below `floor`. */
  function CountBelow(n: nat, modulus: nat, floor: nat): nat
    requires modulus > 0
  {
    if n == 0 then 0
    else CountBelow(n - 1, modulus, floor) + if Rejected(n - 1, modulus, floor) then 1 else 0
  }

  lemma {:induction false} CountBelowClosedForm(n: nat, modulus: nat, floor: nat)
    requires 0 < floor <= modulus
    ensures CountBelow(n, modulus, floor)
         == n / modulus * floor + if n % modulus < floor then n % modulus else floor
  {
    if n == 0 {
    } else {
      CountBelowClosedForm(n - 1, modulus, floor);
      ClosedFormStep(n - 1, modulus, floor);
    }
  }

  lemma ClosedFormStep(n: nat, modulus: nat, floor: nat)
    requires 0 < floor <= modulus
    ensures (n + 1) / modulus * floor + (if (n + 1) % modulus < floor then (n + 1) % modulus else floor)
         == n / modulus * floor + (if n % modulus < floor then n % modulus + 1 else floor)
  {
    var q := n / modulus;
    if n % modulus + 1 < modulus {
      DivModUnique(n + 1, modulus, q, n % modulus + 1);
    } else {
      DivModUnique(n + 1, modulus, q + 1, 0);
      assert (q + 1) * floor == q * floor + floor;
    }
  }

  /** Positions of one period whose output is below `n` and rejected. */
  ghost function RejectedBelow(s: Word, modulus: nat, floor: nat, n: nat): (f: set<nat>)
    requires modulus > 0 && n <= OUTPUTS
    ensures |f| == CountBelow(n, modulus, floor) * LOW_STATES
    ensures forall i: nat :: i in f <==> i < PERIOD && Output(s, i) < n && Rejected(Output(s, i), modulus, floor)
  {
    if n == 0 then {} else
      var rest := RejectedBelow(s, modulus, floor, n - 1);
      if Rejected(n - 1, modulus, floor) then
        DisjointUnion(rest, Fiber(s, n - 1, LOW_STATES));
        rest + Fiber(s, n - 1, LOW_STATES)
      else rest
  }

  lemma DisjointUnion(a: set<nat>, b: set<nat>)
    requires forall i :: i in a ==> i !in b
    ensures |a + b| == |a| + |b|
  {
    assert a !! b;
  }

  ghost function Below(n: nat): (f: set<nat>)
    ensures |f| == n
    ensures forall i: nat :: i in f <==> i < n
  {
    if n == 0 then {} else Below(n - 1) + {n - 1}
  }

  lemma {:induction false} SubsetSize(a: set<nat>, b: set<nat>)
    requires a <= b
    ensures |a| <= |b|
  {
    if a == {} {
    } else {
      var x :| x in a;
      SubsetSize(a - {x}, b - {x});
    }
  }

  /** Consecutive rejected draws, from any state: no more of them than rejected positions in a period. */
  lemma RejectionRunBound(s: Word, modulus: nat, floor: nat, run: nat)
    requires 0 < floor < modulus && floor < OUTPUTS
    requires forall i: nat :: i < run ==> Rejected(Output(s, i), modulus, floor)
    ensures run <= CountBelow(OUTPUTS, modulus, floor) * LOW_STATES
  {
    var window := if run < PERIOD then run else PERIOD;
    SubsetSize(Below(window), RejectedBelow(s, modulus, floor, OUTPUTS));
    FloorIsAccepted(OUTPUTS, modulus, floor);
  }

  lemma {:induction false} FloorIsAccepted(n: nat, modulus: nat, floor: nat)
    requires floor < modulus
    ensures CountBelow(n, modulus, floor) <= n
    ensures floor < n ==> CountBelow(n, modulus, floor) < n
  {
    if n == 0 {
    } else {
      FloorIsAccepted(n - 1, modulus, floor);
      if n - 1 == floor {
        DivModUnique(floor, modulus, 0, floor);
      }
    }
  }
}
