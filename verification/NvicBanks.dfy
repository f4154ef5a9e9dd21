/** The banked write-one-to-set and write-one-to-clear registers of the NVIC (section B3.4 of the
    ARMv7-M Architecture Reference Manual), seen as sets of interrupt numbers. */
module NvicBanks {
  import opened Words
  import opened Bits
  import opened Fields

  const LINES: nat := 256

  /** Eight words, one bit per interrupt. */
  type Bank = b: seq<Word> | |b| == 8 witness [0, 0, 0, 0, 0, 0, 0, 0]

  /** Interrupt numbers have 32-bit signed range; negative ones are processor exceptions. */
  type Irq = n: int | -0x8000_0000 <= n < 256

  predicate Member(b: Bank, n: nat)
    requires n < LINES
  {
    Bit(b[n / 32], n % 32)
  }

  ghost function Members(b: Bank): set<nat> {
    set n: nat | n < LINES && Member(b, n)
  }

  // ----- Hardware: writing a word of ones and zeros to a bank -----

  function WriteSet(b: Bank, index: nat, value: Word): Bank
    requires index < 8
  {
    b[index := OrWord(b[index], value)]
  }

  function WriteClear(b: Bank, index: nat, value: Word): Bank
    requires index < 8
  {
    b[index := And(b[index], Not(value))]
  }

  // ----- Software: which word and which mask -----

  /** `n >> 5` */
  function WordIndex(n: nat): (i: nat)
    requires n < LINES
    ensures i == n / 32 && i < 8
  {
    Pow2Values();
    Shr(n, 5)
  }

  /** `1UL << (n & 0x1F)` */
  function LineMask(n: nat): (m: Word)
    requires n < LINES
    ensures m == Shl(1, n % 32)
  {
    Pow2Values();
    AndMask(n, 5);
    Shl(1, And(n, 0x1F))
  }

  lemma OtherLine(n: nat, k: nat)
    requires n < LINES && k < LINES
    ensures n / 32 == k / 32 && n % 32 == k % 32 <==> n == k
  {
  }

  lemma SetAddsMember(b: Bank, n: nat)
    requires n < LINES
    ensures Members(WriteSet(b, WordIndex(n), LineMask(n))) == Members(b) + {n}
  {
    var b' := WriteSet(b, WordIndex(n), LineMask(n));
    forall k: nat | k < LINES
      ensures Member(b', k) <==> Member(b, k) || k == n
    {
      OtherLine(n, k);
      WithBitBit(b[n / 32], n % 32, k % 32);
    }
  }

  lemma ClearRemovesMember(b: Bank, n: nat)
    requires n < LINES
    ensures Members(WriteClear(b, WordIndex(n), LineMask(n))) == Members(b) - {n}
  {
    var b' := WriteClear(b, WordIndex(n), LineMask(n));
    forall k: nat | k < LINES
      ensures Member(b', k) <==> Member(b, k) && k != n
    {
      OtherLine(n, k);
      WithoutBitBit(b[n / 32], n % 32, k % 32);
    }
  }

  lemma ReadTellsMember(b: Bank, n: nat)
    requires n < LINES
    ensures And(b[WordIndex(n)], LineMask(n)) != 0 <==> n in Members(b)
  {
    TestBit(b[n / 32], n % 32);
  }

  // ----- Sequences of calls -----

  datatype Call = Enable(irq: Irq) | Disable(irq: Irq) | SetPending(irq: Irq) | ClearPending(irq: Irq)

  datatype Registers = Registers(enabled: Bank, pending: Bank)

  datatype Sets = Sets(enabled: set<nat>, pending: set<nat>)

  /** What one call does to the registers; negative interrupt numbers are ignored. */
  function Perform(r: Registers, call: Call): Registers {
    if call.irq < 0 then r else
      var index, mask := WordIndex(call.irq), LineMask(call.irq);
      match call
      case Enable(_) => r.(enabled := WriteSet(r.enabled, index, mask))
      case Disable(_) => r.(enabled := WriteClear(r.enabled, index, mask))
      case SetPending(_) => r.(pending := WriteSet(r.pending, index, mask))
      case ClearPending(_) => r.(pending := WriteClear(r.pending, index, mask))
  }

  function PerformAll(r: Registers, calls: seq<Call>): Registers
    decreases |calls|
  {
    if calls == [] then r
    else Perform(PerformAll(r, calls[..|calls| - 1]), calls[|calls| - 1])
  }

  /** The same call on plain sets. */
  ghost function Effect(s: Sets, call: Call): Sets {
    if call.irq < 0 then s else
      match call
      case Enable(n) => s.(enabled := s.enabled + {n})
      case Disable(n) => s.(enabled := s.enabled - {n})
      case SetPending(n) => s.(pending := s.pending + {n})
      case ClearPending(n) => s.(pending := s.pending - {n})
  }

  ghost function EffectAll(s: Sets, calls: seq<Call>): Sets
    decreases |calls|
  {
    if calls == [] then s
    else Effect(EffectAll(s, calls[..|calls| - 1]), calls[|calls| - 1])
  }

  ghost function Abstract(r: Registers): Sets {
    Sets(Members(r.enabled), Members(r.pending))
  }

  lemma CallRefines(r: Registers, call: Call)
    ensures Abstract(Perform(r, call)) == Effect(Abstract(r), call)
  {
    if call.irq >= 0 {
      SetAddsMember(r.enabled, call.irq);
      SetAddsMember(r.pending, call.irq);
      ClearRemovesMember(r.enabled, call.irq);
      ClearRemovesMember(r.pending, call.irq);
    }
  }

  /** Every sequence of calls on the registers is that sequence on two sets of interrupt numbers. */
  lemma {:induction false} CallsRefine(r: Registers, calls: seq<Call>)
    ensures Abstract(PerformAll(r, calls)) == EffectAll(Abstract(r), calls)
    decreases |calls|
  {
    if calls == [] {
    } else {
      var before := calls[..|calls| - 1];
      CallsRefine(r, before);
      CallRefines(PerformAll(r, before), calls[|calls| - 1]);
    }
  }

  predicate NamesEnable(call: Call, n: nat) {
    call.irq == n && (call.Enable? || call.Disable?)
  }

  predicate NamesPending(call: Call, n: nat) {
    call.irq == n && (call.SetPending? || call.ClearPending?)
  }

  /** The last enable or disable naming an interrupt decides whether it ends up enabled;
      with none, it stays as it was. */
  lemma {:induction false} LastEnableDecides(r: Registers, calls: seq<Call>, n: nat, last: int)
    requires n < LINES && -1 <= last < |calls|
    requires last >= 0 ==> NamesEnable(calls[last], n)
    requires forall k: nat :: last < k < |calls| ==> !NamesEnable(calls[k], n)
    ensures n in Members(PerformAll(r, calls).enabled)
       <==> if last >= 0 then calls[last].Enable? else n in Members(r.enabled)
    decreases |calls|
  {
    if calls == [] {
    } else {
      var before, call := calls[..|calls| - 1], calls[|calls| - 1];
      CallRefines(PerformAll(r, before), call);
      if last < |before| {
        LastEnableDecides(r, before, n, last);
        assert !NamesEnable(calls[|before|], n);
      }
    }
  }

  /** The same for the pending state. */
  lemma {:induction false} LastPendingDecides(r: Registers, calls: seq<Call>, n: nat, last: int)
    requires n < LINES && -1 <= last < |calls|
    requires last >= 0 ==> NamesPending(calls[last], n)
    requires forall k: nat :: last < k < |calls| ==> !NamesPending(calls[k], n)
    ensures n in Members(PerformAll(r, calls).pending)
       <==> if last >= 0 then calls[last].SetPending? else n in Members(r.pending)
    decreases |calls|
  {
    if calls == [] {
    } else {
      var before, call := calls[..|calls| - 1], calls[|calls| - 1];
      CallRefines(PerformAll(r, before), call);
      if last < |before| {
        LastPendingDecides(r, before, n, last);
        assert !NamesPending(calls[|before|], n);
      }
    }
  }
}
