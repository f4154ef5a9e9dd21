/** The NVIC and priority-grouping functions of CMSIS/core_cm3.h on a register file. */
module Nvic {
  import opened Words
  import opened Bits
  import opened Fields
  import opened NvicPriority
  import opened NvicBanks

  /** AIRCR reads back this key in its upper half, and obeys writes that carry 0x05FA there. */
  const VECTKEYSTAT: nat := 0xFA05
  const WRITE_KEY: nat := 0x05FA

  /** Interrupt numbers whose priority has a register. */
  type Prioritised = n: int | -12 <= n < 240 witness 0

  /** `((uint32_t) IRQn & 0xF) - 4` */
  function HandlerIndex(irq: Prioritised): (i: nat)
    requires irq < 0
    ensures i == irq + 12
  {
    Pow2Values();
    AndMask(irq + TWO_32, 4);
    ModAddMultiple(irq + 16, 16, 0xFFF_FFFF);
    And(irq + TWO_32, 0xF) - 4
  }

  /** Of the processor exceptions -16 to -1 exactly those from -12 on index a handler priority register;
      for the rest (NMI and HardFault among them) the unsigned subtraction of 4 leaves the register block. */
  lemma HandlerSlotExists(irq: int)
    requires -16 <= irq < 0
    ensures 0 <= And(irq + TWO_32, 0xF) - 4 < 12 <==> irq >= -12
  {
    Pow2Values();
    AndMask(irq + TWO_32, 4);
    DivModUnique(irq + TWO_32, 16, 0xFFF_FFFF, irq + 16);
  }

  class Controller {
    const bits: PrioBits
    const enabled: array<Word>
    const pending: array<Word>
    const ip: array<Byte>
    const shp: array<Byte>
    var airLow: Word

    ghost predicate Valid()
      reads this
    {
      && enabled.Length == 8 && pending.Length == 8 && enabled != pending
      && ip.Length == 240 && shp.Length == 12 && ip != shp
      && airLow < 0x1_0000
    }

    constructor (bits: PrioBits)
      ensures Valid() && fresh(enabled) && fresh(pending) && fresh(ip) && fresh(shp)
      ensures this.bits == bits && State() == Sets({}, {})
      ensures forall irq: Prioritised :: PriorityOf(irq) == 0
    {
      this.bits := bits;
      enabled := new Word[8](_ => 0);
      pending := new Word[8](_ => 0);
      ip := new Byte[240](_ => 0);
      shp := new Byte[12](_ => 0);
      airLow := 0;
      new;
      forall k: nat
        ensures !Bit(0, k)
      {
        ZeroBit(k);
      }
    }

    // ----- Enabled and pending interrupts -----

    ghost function Banks(): Registers
      requires Valid()
      reads this, enabled, pending
    {
      Registers(enabled[..], pending[..])
    }

    ghost function State(): Sets
      requires Valid()
      reads this, enabled, pending
    {
      Abstract(Banks())
    }

    /** Hardware: ones written to ISER enable interrupts, zeros leave them; likewise for the other three. */
    method WriteIser(index: nat, value: Word)
      requires Valid() && index < 8
      modifies enabled
      ensures Valid() && Banks() == Registers(WriteSet(old(Banks().enabled), index, value), old(Banks().pending))
    {
      enabled[index] := OrWord(enabled[index], value);
    }

    method WriteIcer(index: nat, value: Word)
      requires Valid() && index < 8
      modifies enabled
      ensures Valid() && Banks() == Registers(WriteClear(old(Banks().enabled), index, value), old(Banks().pending))
    {
      enabled[index] := And(enabled[index], Not(value));
    }

    method WriteIspr(index: nat, value: Word)
      requires Valid() && index < 8
      modifies pending
      ensures Valid() && Banks() == Registers(old(Banks().enabled), WriteSet(old(Banks().pending), index, value))
    {
      pending[index] := OrWord(pending[index], value);
    }

    method WriteIcpr(index: nat, value: Word)
      requires Valid() && index < 8
      modifies pending
      ensures Valid() && Banks() == Registers(old(Banks().enabled), WriteClear(old(Banks().pending), index, value))
    {
      pending[index] := And(pending[index], Not(value));
    }

    method EnableIRQ(irq: Irq)
      requires Valid()
      modifies enabled
      ensures Valid() && Banks() == Perform(old(Banks()), Enable(irq))
      ensures State() == Effect(old(State()), Enable(irq))
    {
      CallRefines(Banks(), Enable(irq));
      if irq >= 0 {
        WriteIser(WordIndex(irq), LineMask(irq));
      }
    }

    method GetEnableIRQ(irq: Irq) returns (r: Word)
      requires Valid()
      ensures r == if irq in State().enabled then 1 else 0
    {
      if irq >= 0 {
        ReadTellsMember(Banks().enabled, irq);
        r := if And(enabled[WordIndex(irq)], LineMask(irq)) != 0 then 1 else 0;
      } else {
        r := 0;
      }
    }

    method DisableIRQ(irq: Irq)
      requires Valid()
      modifies enabled
      ensures Valid() && Banks() == Perform(old(Banks()), Disable(irq))
      ensures State() == Effect(old(State()), Disable(irq))
    {
      CallRefines(Banks(), Disable(irq));
      if irq >= 0 {
        WriteIcer(WordIndex(irq), LineMask(irq));
      }
    }

    method GetPendingIRQ(irq: Irq) returns (r: Word)
      requires Valid()
      ensures r == if irq in State().pending then 1 else 0
    {
      if irq >= 0 {
        ReadTellsMember(Banks().pending, irq);
        r := if And(pending[WordIndex(irq)], LineMask(irq)) != 0 then 1 else 0;
      } else {
        r := 0;
      }
    }

    method SetPendingIRQ(irq: Irq)
      requires Valid()
      modifies pending
      ensures Valid() && Banks() == Perform(old(Banks()), SetPending(irq))
      ensures State() == Effect(old(State()), SetPending(irq))
    {
      CallRefines(Banks(), SetPending(irq));
      if irq >= 0 {
        WriteIspr(WordIndex(irq), LineMask(irq));
      }
    }

    method ClearPendingIRQ(irq: Irq)
      requires Valid()
      modifies pending
      ensures Valid() && Banks() == Perform(old(Banks()), ClearPending(irq))
      ensures State() == Effect(old(State()), ClearPending(irq))
    {
      CallRefines(Banks(), ClearPending(irq));
      if irq >= 0 {
        WriteIcpr(WordIndex(irq), LineMask(irq));
      }
    }

    // ----- Priorities -----

    ghost function PriorityOf(irq: Prioritised): Word
      requires Valid()
      reads this, ip, shp
    {
      LoadedPriority(bits, if irq >= 0 then ip[irq] else shp[irq + 12])
    }

    /** One interrupt's priority becomes the value modulo 2^bits; every other one stays. */
    method SetPriority(irq: Prioritised, priority: Word)
      requires Valid()
      modifies ip, shp
      ensures Valid()
      ensures PriorityOf(irq) == priority % Pow2(bits)
      ensures forall other: Prioritised :: other != irq ==> PriorityOf(other) == old(PriorityOf(other))
      ensures (if irq >= 0 then ip[irq] else shp[irq + 12]) == StoredByte(bits, priority)
    {
      StoreThenLoad(bits, priority);
      if irq >= 0 {
        ip[irq] := StoredByte(bits, priority);
      } else {
        shp[HandlerIndex(irq)] := StoredByte(bits, priority);
      }
    }

    method GetPriority(irq: Prioritised) returns (r: Word)
      requires Valid()
      ensures r == PriorityOf(irq)
      ensures r == LoadedPriority(bits, if irq >= 0 then ip[irq] else shp[irq + 12])
    {
      if irq >= 0 {
        r := LoadedPriority(bits, ip[irq]);
      } else {
        r := LoadedPriority(bits, shp[HandlerIndex(irq)]);
      }
    }

    // ----- Priority grouping -----

    function ReadAircr(): (w: Word)
      requires Valid()
      reads this
      ensures w / 0x1_0000 == 0xFA05 && w % 0x1_0000 == airLow
    {
      Halves(VECTKEYSTAT, airLow)
    }

    /** PRIGROUP, bits 8 to 10. */
    ghost function GroupInForce(): nat
      requires Valid()
      reads this
    {
      ReadAircr() / 0x100 % 8
    }

    /** The register ignores a write without the key. */
    method WriteAircr(value: Word)
      requires Valid()
      modifies this
      ensures Valid()
      ensures airLow == if value / 0x1_0000 == 0x05FA then value % 0x1_0000 else old(airLow)
    {
      if value / 0x1_0000 == WRITE_KEY {
        airLow := value % 0x1_0000;
      }
    }

    method SetPriorityGrouping(priorityGroup: Word)
      requires Valid()
      modifies this
      ensures Valid()
      ensures GroupInForce() == priorityGroup % 8
      ensures forall i: nat :: i < 16 && !(8 <= i < 11) ==> Bit(airLow, i) == Bit(old(airLow), i)
    {
      var tmp := Group(priorityGroup);
      var before := ReadAircr();
      var reg := Regrouped(before, WRITE_KEY, tmp);
      KeyWritten(before, WRITE_KEY, tmp);
      WriteAircr(reg);
      GroupWritten(before, WRITE_KEY, tmp, ReadAircr());
      GroupField(ReadAircr());
      GroupValue(priorityGroup);
      forall i: nat | i < 16 && !(8 <= i < 11)
        ensures Bit(airLow, i) == Bit(old(airLow), i)
      {
        RestWritten(before, WRITE_KEY, tmp, i);
      }
    }

    method GetPriorityGrouping() returns (r: Word)
      requires Valid()
      ensures r == GroupInForce()
    {
      GroupField(ReadAircr());
      r := Shr(And(ReadAircr(), Mask(8, 3)), 8);
    }
  }

  lemma GroupField(w: Word)
    ensures Fld2Val(8, 3, w) == w / 0x100 % 8
  {
    assert Pow2(3) == 8;
    Pow2Values();
    FieldValue(8, 3, w);
  }

  function Halves(high: nat, low: nat): (w: Word)
    requires high < 0x1_0000 && low < 0x1_0000
    ensures w / 0x1_0000 == high && w % 0x1_0000 == low
  {
    high * 0x1_0000 + low
  }

  lemma LowHalfBit(w: Word, i: nat)
    requires i < 16
    ensures Bit(w % 0x1_0000, i) == Bit(w, i)
  {
    Pow2Values();
    ModBit(w, 16, i);
  }

  /** The old word with the key and group fields cleared. */
  function Ungrouped(before: Word): Word {
    And(before, Not(OrWord(Mask(16, 16), Mask(8, 3))))
  }

  /** The word that `SetPriorityGrouping` writes back. */
  function Regrouped(before: Word, key: Word, g: Word): Word {
    OrWord(OrWord(Ungrouped(before), Shl(key, 16)), Shl(g, 8))
  }

  ghost predicate WrittenBit(before: Word, key: Word, g: Word, i: nat) {
    if i >= 16 then Bit(key, i - 16) else if 8 <= i < 11 then Bit(g, i - 8) else Bit(before, i)
  }

  lemma UngroupedBit(before: Word, i: nat)
    requires i < 32
    ensures Bit(Ungrouped(before), i) <==> i < 16 && !(8 <= i < 11) && Bit(before, i)
  {
    var masks := OrWord(Mask(16, 16), Mask(8, 3));
    AndBit(before, Not(masks), i);
    NotBit(masks, i);
    OrBit(Mask(16, 16), Mask(8, 3), i);
    MaskBit(16, 16, i);
    MaskBit(8, 3, i);
  }

  lemma GroupBit(g: Word, i: nat)
    requires g < 8
    ensures Bit(Shl(g, 8), i) <==> 8 <= i < 11 && Bit(g, i - 8)
  {
    ShlBit(g, 8, i);
    if i >= 11 {
      assert Pow2(3) == 8;
      HighBitsClear(3, g, i - 8);
    }
  }

  lemma RegroupedBit(before: Word, key: Word, g: Word, i: nat)
    requires i < 32 && g < 8
    ensures Bit(Regrouped(before, key, g), i) == WrittenBit(before, key, g, i)
  {
    OrThreeBit(Ungrouped(before), Shl(key, 16), Shl(g, 8), i);
    UngroupedBit(before, i);
    ShlBit(key, 16, i);
    GroupBit(g, i);
  }

  lemma OrThreeBit(a: Word, b: Word, c: Word, i: nat)
    ensures Bit(OrWord(OrWord(a, b), c), i) <==> Bit(a, i) || Bit(b, i) || Bit(c, i)
  {
    OrBit(OrWord(a, b), c, i);
    OrBit(a, b, i);
  }

  lemma KeyWritten(before: Word, key: Word, g: Word)
    requires g < 8 && key < 0x1_0000
    ensures Regrouped(before, key, g) / 0x1_0000 == key
  {
    var reg := Regrouped(before, key, g);
    Pow2Values();
    forall i: nat | i < 16
      ensures Bit(Shr(reg, 16), i) == Bit(key, i)
    {
      ShrBit(reg, 16, i);
      RegroupedBit(before, key, g, i + 16);
    }
    SameBits(16, Shr(reg, 16), key);
  }

  /** Every low bit outside the group field is given back as it was read. */
  lemma RestWritten(before: Word, key: Word, g: Word, i: nat)
    requires g < 8 && i < 16 && !(8 <= i < 11)
    ensures Bit(Regrouped(before, key, g) % 0x1_0000, i) == Bit(before % 0x1_0000, i)
  {
    LowHalfBit(Regrouped(before, key, g), i);
    LowHalfBit(before, i);
    RegroupedBit(before, key, g, i);
  }

  /** A register whose low half was written by the read-modify-write shows the group. */
  lemma GroupWritten(before: Word, key: Word, g: Word, seen: Word)
    requires g < 8 && seen % 0x1_0000 == Regrouped(before, key, g) % 0x1_0000
    ensures Fld2Val(8, 3, seen) == g
  {
    forall i: nat | i < 3
      ensures Bit(seen, 8 + i) == Bit(g, i)
    {
      LowHalfBit(seen, 8 + i);
      LowHalfBit(Regrouped(before, key, g), 8 + i);
      RegroupedBit(before, key, g, 8 + i);
    }
    ExtractCarried(seen, 8, 3, g);
    assert Pow2(3) == 8;
    SmallMod(g, 8);
  }
}
