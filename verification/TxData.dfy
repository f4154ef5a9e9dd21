/** `prvCreateTxData` of TCPEchoClient_SingleTasks.c: the rejection loop that chooses a length and the
    loop that fills the buffer. */
module TxData {
  import opened Words
  import opened Lcg
  import opened LcgOutput
  import opened RandomSource

  const MINIMUM_LENGTH: nat := 60

  /** Characters '0' (48) to '~' (126). */
  const CYCLE: nat := 79

  function FillChar(i: nat): char {
    ('0' as int + i % CYCLE) as char
  }

  function Filler(len: nat): (s: string)
    ensures |s| == len
  {
    seq(len, i requires 0 <= i < len => FillChar(i))
  }

  /** `ulBufferLength - 20UL` */
  function Spread(bufferLength: Word): Word {
    (bufferLength - 20) % TWO_32
  }

  predicate Accepts(bufferLength: Word, v: nat)
    requires bufferLength != 20
  {
    SpreadValue(bufferLength);
    !Rejected(v, Spread(bufferLength), MINIMUM_LENGTH)
  }

  /** Longest possible run of discarded draws. */
  function LongestRun(bufferLength: Word): nat
    requires bufferLength != 20
  {
    SpreadValue(bufferLength);
    CountBelow(OUTPUTS, Spread(bufferLength), MINIMUM_LENGTH) * LOW_STATES
  }

  // ----- When the rejection loop ends -----

  /** Below 20 the unsigned subtraction wraps. */
  lemma SpreadValue(bufferLength: Word)
    ensures Spread(bufferLength) == if bufferLength >= 20 then bufferLength - 20 else bufferLength + 0xFFFF_FFEC
  {
    if bufferLength >= 20 {
      SmallMod(bufferLength - 20, TWO_32);
    } else {
      DivModUnique(bufferLength - 20, TWO_32, -1, bufferLength + 0xFFFF_FFEC);
    }
  }

  /** A state whose output is 60, which every large enough buffer accepts. */
  const TARGET: Word := 60 * 0x1_0000

  lemma TargetAccepted(bufferLength: Word)
    requires bufferLength < 20 || bufferLength >= 81
    ensures Out(TARGET) == 60 && Accepts(bufferLength, Out(TARGET))
  {
    SpreadValue(bufferLength);
    SmallMod(60, Spread(bufferLength));
  }

  ghost predicate LoopEndsFrom(s: Word, bufferLength: Word)
    requires bufferLength != 20
  {
    exists n: nat :: n >= 1 && Accepts(bufferLength, Output(s, n))
  }

  /** From every generator state alike: the loop ends for buffers of at least 81 bytes, and for those
      below 20, where the wrapped subtraction lets it choose a length beyond the buffer.  For 21 to 80
      bytes it never ends; 20 divides by zero. */
  lemma LoopEndsExactly(bufferLength: Word, s: Word)
    requires bufferLength != 20
    ensures LoopEndsFrom(s, bufferLength) <==> bufferLength < 20 || bufferLength >= 81
    ensures forall n: nat :: Accepts(bufferLength, Output(s, n)) ==>
      (Output(s, n) % Spread(bufferLength) < bufferLength <==> bufferLength >= 81)
  {
    SpreadValue(bufferLength);
    if bufferLength < 20 || bufferLength >= 81 {
      TargetAccepted(bufferLength);
      var n := Distance(Step(s), TARGET);
      DrawsAdd(s, 1, n);
      assert Draws(s, 1) == Step(s);
      assert Accepts(bufferLength, Output(s, 1 + n));
    }
  }

  /** With the 1460-byte buffers of the demo (MTU 1500 less 40) at most 1380 * 2^16 draws in a row are discarded. */
  lemma LongestRunForDemo()
    ensures LongestRun(1460) == 1380 * 0x1_0000
  {
    SpreadValue(1460);
    CountBelowClosedForm(OUTPUTS, 1440, MINIMUM_LENGTH);
  }

  /** What is known of the draws made so far: all of them were discarded. */
  ghost predicate AllDiscarded(s: Word, bufferLength: Word, draws: nat)
    requires bufferLength != 20
  {
    forall i: nat :: 1 <= i < draws ==> !Accepts(bufferLength, Output(s, i))
  }

  lemma DiscardedBound(s: Word, bufferLength: Word, draws: nat)
    requires bufferLength >= 81 && draws >= 1
    requires AllDiscarded(s, bufferLength, draws)
    ensures draws - 1 <= LongestRun(bufferLength)
  {
    SpreadValue(bufferLength);
    forall i: nat | i < draws - 1
      ensures Rejected(Output(Step(s), i), Spread(bufferLength), MINIMUM_LENGTH)
    {
      DrawsAdd(s, 1, i);
      assert Draws(s, 1) == Step(s);
      assert !Accepts(bufferLength, Output(s, i + 1));
    }
    RejectionRunBound(Step(s), Spread(bufferLength), MINIMUM_LENGTH, draws - 1);
  }

  /** A discarded draw came from a state other than the target, so the next one is closer to it. */
  lemma NextDraw(s: Word, bufferLength: Word, draws: nat)
    requires bufferLength >= 81
    requires draws >= 1 && AllDiscarded(s, bufferLength, draws)
    requires !Accepts(bufferLength, Output(s, draws))
    ensures AllDiscarded(s, bufferLength, draws + 1)
    ensures Draws(Draws(s, draws), 1) == Draws(s, draws + 1)
    ensures Output(Draws(s, draws), 1) == Output(s, draws + 1)
    ensures Distance(Draws(s, draws + 1), TARGET) < Distance(Draws(s, draws), TARGET)
  {
    TargetAccepted(bufferLength);
    DrawsAdd(s, draws, 1);
    DistanceFalls(Draws(s, draws), TARGET);
    assert Draws(Draws(s, draws), 1) == Step(Draws(s, draws));
  }

  // ----- The length chosen from a state -----

  /** The first draw that is accepted, looking from draw `n` on. */
  ghost function Search(s: Word, bufferLength: Word, n: nat): (found: nat)
    requires bufferLength >= 81 && n >= 1 && AllDiscarded(s, bufferLength, n)
    ensures found >= 1 && AllDiscarded(s, bufferLength, found) && Accepts(bufferLength, Output(s, found))
    decreases Distance(Draws(s, n), TARGET)
  {
    if Accepts(bufferLength, Output(s, n)) then n
    else
      NextDraw(s, bufferLength, n);
      Search(s, bufferLength, n + 1)
  }

  ghost function FirstAccepted(s: Word, bufferLength: Word): (n: nat)
    requires bufferLength >= 81
    ensures n >= 1 && AllDiscarded(s, bufferLength, n) && Accepts(bufferLength, Output(s, n))
  {
    Search(s, bufferLength, 1)
  }

  lemma OnlyFirstAccepted(s: Word, bufferLength: Word, n: nat)
    requires bufferLength >= 81
    requires n >= 1 && AllDiscarded(s, bufferLength, n) && Accepts(bufferLength, Output(s, n))
    ensures n == FirstAccepted(s, bufferLength)
  {
    var m := FirstAccepted(s, bufferLength);
  }

  /** The length chosen when the generator stands at `s`. */
  ghost function Length(s: Word, bufferLength: Word): (len: nat)
    requires bufferLength >= 81
    ensures MINIMUM_LENGTH <= len <= bufferLength - 21
  {
    SpreadValue(bufferLength);
    Output(s, FirstAccepted(s, bufferLength)) % Spread(bufferLength)
  }

  /** Where the choice leaves the generator. */
  ghost function StateAfter(s: Word, bufferLength: Word): Word
    requires bufferLength >= 81
  {
    Draws(s, FirstAccepted(s, bufferLength))
  }

  /** Exactly the lengths from 60 to the buffer size less 21, as far as 15 bits reach, are ever chosen. */
  lemma LengthsChosenExactly(bufferLength: Word, len: nat)
    requires bufferLength >= 81
    ensures (exists s: Word :: Length(s, bufferLength) == len)
       <==> MINIMUM_LENGTH <= len <= bufferLength - 21 && len < OUTPUTS
  {
    SpreadValue(bufferLength);
    if MINIMUM_LENGTH <= len <= bufferLength - 21 && len < OUTPUTS {
      var s := StateBefore(len * 0x1_0000);
      DivModUnique(len * 0x1_0000, 0x1_0000, len, 0);
      SmallMod(len, OUTPUTS);
      SmallMod(len, Spread(bufferLength));
      assert Output(s, 1) == len;
      OnlyFirstAccepted(s, bufferLength, 1);
      assert Length(s, bufferLength) == len;
    }
    forall s: Word
      ensures Length(s, bufferLength) < OUTPUTS
    {
      LengthIsOutput(Output(s, FirstAccepted(s, bufferLength)), Spread(bufferLength));
    }
  }

  lemma LengthIsOutput(v: nat, m: nat)
    requires m > 0
    ensures v % m <= v
  {
    QuotientBounds(v, m);
    MulMonotone(m, 0, v / m);
  }

  /** The state whose next draw leads to `t`. */
  ghost function StateBefore(t: Word): (s: Word)
    ensures Draws(s, 1) == t
  {
    FullPeriod(t, TWO_32);
    DrawsAdd(t, 0xFFFF_FFFF, 1);
    Draws(t, 0xFFFF_FFFF)
  }

  /** The length is the first draw that leaves a remainder of at least 60, found within the run bound. */
  method ChooseLength(random: Generator, bufferLength: Word) returns (len: nat, ghost draws: nat)
    requires bufferLength >= 81
    modifies random
    ensures draws >= 1 && random.nextRand == Draws(old(random.nextRand), draws)
    ensures AllDiscarded(old(random.nextRand), bufferLength, draws)
    ensures forall i: nat :: 1 <= i < draws ==> Output(old(random.nextRand), i) % (bufferLength - 20) < 60
    ensures draws - 1 <= LongestRun(bufferLength)
    ensures len == Output(old(random.nextRand), draws) % (bufferLength - 20)
    ensures 60 <= len <= bufferLength - 21
    ensures len == Length(old(random.nextRand), bufferLength)
    ensures random.nextRand == StateAfter(old(random.nextRand), bufferLength)
  {
    SpreadValue(bufferLength);
    ghost var start := random.nextRand;
    var ok, number := random.GetRandomNumber();
    draws := 1;
    len := number % Spread(bufferLength);
    while len == 0 || len < MINIMUM_LENGTH
      invariant draws >= 1 && random.nextRand == Draws(start, draws)
      invariant AllDiscarded(start, bufferLength, draws)
      invariant len == Output(start, draws) % Spread(bufferLength)
      decreases Distance(random.nextRand, TARGET)
    {
      NextDraw(start, bufferLength, draws);
      ok, number := random.GetRandomNumber();
      len := number % Spread(bufferLength);
      draws := draws + 1;
    }
    DiscardedBound(start, bufferLength, draws);
    OnlyFirstAccepted(start, bufferLength, draws);
  }

  /** The buffer starts with that many characters of the cycle and is otherwise untouched. */
  method CreateTxData(random: Generator, buffer: array<char>, bufferLength: Word)
    returns (len: nat, ghost draws: nat)
    requires 81 <= bufferLength <= buffer.Length
    modifies random, buffer
    ensures draws >= 1 && random.nextRand == Draws(old(random.nextRand), draws)
    ensures AllDiscarded(old(random.nextRand), bufferLength, draws)
    ensures forall i: nat :: 1 <= i < draws ==> Output(old(random.nextRand), i) % (bufferLength - 20) < 60
    ensures draws - 1 <= LongestRun(bufferLength)
    ensures len == Output(old(random.nextRand), draws) % (bufferLength - 20)
    ensures 60 <= len <= bufferLength - 21
    ensures len == Length(old(random.nextRand), bufferLength)
    ensures random.nextRand == StateAfter(old(random.nextRand), bufferLength)
    ensures buffer[..len] == Filler(len)
    ensures forall i: nat :: i < len ==> buffer[i] as int == 48 + i % 79
    ensures buffer[len..] == old(buffer[len..])
  {
    len, draws := ChooseLength(random, bufferLength);
    FillBuffer(buffer, len);
  }

  method FillBuffer(buffer: array<char>, len: nat)
    requires len <= buffer.Length
    modifies buffer
    ensures buffer[..len] == Filler(len)
    ensures forall i: nat :: i < len ==> buffer[i] as int == 48 + i % 79
    ensures buffer[len..] == old(buffer[len..])
  {
    var c := '0';
    for i := 0 to len
      invariant c == FillChar(i)
      invariant forall k: nat :: k < i ==> buffer[k] == FillChar(k)
      invariant buffer[i..] == old(buffer[i..])
    {
      buffer[i] := c;
      c := c + 1 as char;
      if c > '~' {
        c := '0';
      }
    }
  }
}
