/** The pseudo-random number generator of platform/main_networking.c and its callers. */
module RandomSource {
  import opened Words
  import opened Bits
  import opened Lcg
  import opened LcgOutput

  /** `( ulNextRand >> 16UL ) & 0x7fffUL` */
  lemma ShiftedAndMasked(s: Word)
    ensures And(Shr(s, 16), 0x7FFF) == Out(s)
  {
    Pow2Values();
    AndMask(Shr(s, 16), 15);
  }

  /** The same values from draw `k` on. */
  ghost predicate SameStream(s: Word, s': Word, k: nat) {
    forall i: nat :: i >= k ==> Output(s, i) == Output(s', i)
  }

  /** Two clock readings seed the same stream of random numbers exactly when they agree modulo 2^31. */
  lemma SeedsAgreeExactly(time: int, time': int)
    ensures SameStream(time % TWO_32, time' % TWO_32, 1) <==> time % PERIOD == time' % PERIOD
  {
    Pow2Values();
    ModOfMod(time, PERIOD, 2);
    ModOfMod(time', PERIOD, 2);
    SameStreamExactly(time % TWO_32, time' % TWO_32);
  }

  lemma SameStreamExactly(s: Word, s': Word)
    ensures SameStream(s, s', 1) <==> s % Pow2(31) == s' % Pow2(31)
  {
    var d := Distance(s, s');
    Pow2Values();
    ResiduePeriod(31, s, d);
    OutputPeriod(Draws(s, 1), d);
    StreamIsShifted(s, d, 1);
  }

  lemma SameLater(s: Word, d: nat, i: nat, k: nat, j: nat)
    requires d + i == k + j
    ensures Draws(Draws(s, d), i) == Draws(Draws(s, k), j)
  {
    DrawsAdd(s, d, i);
    DrawsAdd(s, k, j);
  }

  /** A stream seeded from a state d draws on is the same exactly when d is a period. */
  lemma StreamIsShifted(s: Word, d: nat, k: nat)
    ensures SameStream(s, Draws(s, d), k) <==> IsOutputPeriod(Draws(s, k), d)
  {
    if IsOutputPeriod(Draws(s, k), d) {
      forall i: nat | i >= k
        ensures Output(s, i) == Output(Draws(s, d), i)
      {
        SameLater(s, d, i, k, i - k + d);
        SameLater(s, 0, i, k, i - k);
        assert Output(Draws(s, k), (i - k) + d) == Output(Draws(s, k), i - k);
      }
    }
    if SameStream(s, Draws(s, d), k) {
      forall i: nat
        ensures Output(Draws(s, k), i + d) == Output(Draws(s, k), i)
      {
        SameLater(s, d, k + i, k, i + d);
        SameLater(s, 0, k + i, k, i);
        assert Output(s, k + i) == Output(Draws(s, d), k + i);
      }
    }
  }

  class Generator {
    var nextRand: Word

    constructor (seed: Word)
      ensures nextRand == seed
    {
      nextRand := seed;
    }

    method Rand() returns (r: Word)
      modifies this
      ensures nextRand == Draws(old(nextRand), 1)
      ensures r == Output(old(nextRand), 1)
      ensures nextRand == (0x015a4e35 * old(nextRand) + 1) % 0x1_0000_0000 && r == nextRand / 0x1_0000 % 0x8000
    {
      nextRand := (0x015a4e35 * nextRand + 1) % TWO_32;
      ShiftedAndMasked(nextRand);
      r := And(Shr(nextRand, 16), 0x7FFF);
    }

    method SRand(seed: Word)
      modifies this
      ensures nextRand == seed
    {
      nextRand := seed;
    }

    /** Seeding from the clock truncates it to 32 bits. */
    method MiscInitialisation(time: int)
      modifies this
      ensures nextRand == time % TWO_32
    {
      SRand(time % TWO_32);
    }

    method GetNextSequenceNumber(a: Word, b: nat, c: Word, d: nat) returns (r: Word)
      modifies this
      ensures nextRand == Draws(old(nextRand), 1)
      ensures r == Output(old(nextRand), 1)
      ensures nextRand == (0x015a4e35 * old(nextRand) + 1) % 0x1_0000_0000 && r == nextRand / 0x1_0000 % 0x8000
    {
      r := Rand();
    }

    method GetRandomNumber() returns (ok: bool, number: Word)
      modifies this
      ensures ok
      ensures nextRand == Draws(old(nextRand), 1)
      ensures number == Output(old(nextRand), 1)
      ensures nextRand == (0x015a4e35 * old(nextRand) + 1) % 0x1_0000_0000 && number == nextRand / 0x1_0000 % 0x8000
    {
      number := Rand();
      ok := true;
    }
  }
}
