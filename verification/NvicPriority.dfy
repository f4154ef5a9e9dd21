/** Interrupt priorities of CMSIS/core_cm3.h: splitting a priority into a preempt and a sub field,
    and the byte that stores it.  `bits` is `__NVIC_PRIO_BITS`. */
module NvicPriority {
  import opened Words
  import opened Bits

  type PrioBits = b: nat | 1 <= b <= 8 witness 8

  function Group(priorityGroup: Word): (g: nat)
    ensures g <= 7
  {
    And(priorityGroup, 7)
  }

  lemma GroupValue(priorityGroup: Word)
    ensures Group(priorityGroup) == priorityGroup % 8
  {
    assert Pow2(3) == 8;
    AndMask(priorityGroup, 3);
  }

  function PreemptBits(bits: PrioBits, priorityGroup: Word): nat {
    if 7 - Group(priorityGroup) > bits then bits else 7 - Group(priorityGroup)
  }

  /** The unsigned subtraction `g - 7` wraps, and adding `bits` wraps back. */
  function SubBits(bits: PrioBits, priorityGroup: Word): Word {
    var g := Group(priorityGroup);
    if g + bits < 7 then 0 else ((g - 7) % TWO_32 + bits) % TWO_32
  }

  lemma WidthsSum(bits: PrioBits, priorityGroup: Word)
    ensures PreemptBits(bits, priorityGroup) + SubBits(bits, priorityGroup) == bits
  {
    var g := Group(priorityGroup);
    if g + bits >= 7 {
      ModAddMultiple(g - 7, TWO_32, 1);
      ModAddMultiple(g - 7 + bits, TWO_32, 1);
    }
  }

  /** `(1UL << k) - 1` */
  function LowMask(k: nat): Word
    requires k <= 8
  {
    OneShifted(k);
    Shl(1, k) - 1
  }

  function EncodePriority(bits: PrioBits, priorityGroup: Word, preempt: Word, sub: Word): Word {
    WidthsSum(bits, priorityGroup);
    var pre, low := PreemptBits(bits, priorityGroup), SubBits(bits, priorityGroup);
    OrWord(Shl(And(preempt, LowMask(pre)), low), And(sub, LowMask(low)))
  }

  function PreemptOf(bits: PrioBits, priority: Word, priorityGroup: Word): Word {
    WidthsSum(bits, priorityGroup);
    And(Shr(priority, SubBits(bits, priorityGroup)), LowMask(PreemptBits(bits, priorityGroup)))
  }

  function SubOf(bits: PrioBits, priority: Word, priorityGroup: Word): Word {
    WidthsSum(bits, priorityGroup);
    And(priority, LowMask(SubBits(bits, priorityGroup)))
  }

  method DecodePriority(bits: PrioBits, priority: Word, priorityGroup: Word) returns (preempt: Word, sub: Word)
    ensures EncodePriority(bits, priorityGroup, preempt, sub) == priority % Pow2(bits)
    ensures preempt < Pow2(PreemptBits(bits, priorityGroup)) && sub < Pow2(SubBits(bits, priorityGroup))
  {
    var tmp := Group(priorityGroup);
    var preemptBits := if 7 - tmp > bits then bits else 7 - tmp;
    var subBits := if tmp + bits < 7 then 0 else ((tmp - 7) % TWO_32 + bits) % TWO_32;
    WidthsSum(bits, priorityGroup);
    preempt := And(Shr(priority, subBits), LowMask(preemptBits));
    sub := And(priority, LowMask(subBits));
    DecodeThenEncode(bits, priorityGroup, priority);
    DecodedBounds(bits, priorityGroup, priority);
  }

  // ----- The two fields as numbers -----

  lemma MaskedValue(x: Word, k: nat)
    requires k <= 8
    ensures And(x, LowMask(k)) == x % Pow2(k)
  {
    OneShifted(k);
    AndMask(x, k);
  }

  lemma DecodedValues(bits: PrioBits, group: Word, priority: Word)
    ensures PreemptOf(bits, priority, group)
         == priority / Pow2(SubBits(bits, group)) % Pow2(PreemptBits(bits, group))
    ensures SubOf(bits, priority, group) == priority % Pow2(SubBits(bits, group))
  {
    WidthsSum(bits, group);
    MaskedValue(Shr(priority, SubBits(bits, group)), PreemptBits(bits, group));
    MaskedValue(priority, SubBits(bits, group));
  }

  lemma FieldsFit(high: nat, low: nat, h: nat, l: nat)
    requires high < Pow2(h) && low < Pow2(l)
    ensures 0 <= high * Pow2(l) <= high * Pow2(l) + low < Pow2(h + l)
  {
    Pow2Add(h, l);
    DigitsBelow(Pow2(l), Pow2(h), high, low);
  }

  lemma EncodedValue(bits: PrioBits, group: Word, preempt: Word, sub: Word)
    ensures
      var pre, low := PreemptBits(bits, group), SubBits(bits, group);
      EncodePriority(bits, group, preempt, sub) == preempt % Pow2(pre) * Pow2(low) + sub % Pow2(low)
    ensures EncodePriority(bits, group, preempt, sub) < Pow2(bits)
  {
    var pre, low := PreemptBits(bits, group), SubBits(bits, group);
    WidthsSum(bits, group);
    MaskedValue(preempt, pre);
    MaskedValue(sub, low);
    var p, s := preempt % Pow2(pre), sub % Pow2(low);
    FieldsFit(p, s, pre, low);
    assert Pow2(bits) <= TWO_32 by {
      Pow2Values();
      Pow2Monotone(bits, 32);
    }
    SmallMod(p * Pow2(low), TWO_32);
    OrDisjoint(p * Pow2(low), p, s, low);
  }

  /** Decoding an encoded priority returns both parts, each modulo the width of its field. */
  lemma EncodeThenDecode(bits: PrioBits, group: Word, preempt: Word, sub: Word)
    ensures
      var encoded := EncodePriority(bits, group, preempt, sub);
      && PreemptOf(bits, encoded, group) == preempt % Pow2(PreemptBits(bits, group))
      && SubOf(bits, encoded, group) == sub % Pow2(SubBits(bits, group))
  {
    var pre, low := PreemptBits(bits, group), SubBits(bits, group);
    EncodedValue(bits, group, preempt, sub);
    DecodedValues(bits, group, EncodePriority(bits, group, preempt, sub));
    SplitDigits(preempt % Pow2(pre), sub % Pow2(low), Pow2(low));
    SmallMod(preempt % Pow2(pre), Pow2(pre));
  }

  lemma DecodedBounds(bits: PrioBits, group: Word, priority: Word)
    ensures PreemptOf(bits, priority, group) < Pow2(PreemptBits(bits, group))
    ensures SubOf(bits, priority, group) < Pow2(SubBits(bits, group))
  {
    DecodedValues(bits, group, priority);
  }

  lemma DecodedParts(bits: PrioBits, group: Word, priority: Word)
    ensures priority % Pow2(bits)
         == PreemptOf(bits, priority, group) * Pow2(SubBits(bits, group)) + SubOf(bits, priority, group)
  {
    var pre, low := PreemptBits(bits, group), SubBits(bits, group);
    WidthsSum(bits, group);
    DecodedValues(bits, group, priority);
    Pow2Add(pre, low);
    TwoDigits(priority, Pow2(low), Pow2(pre));
  }

  /** The two lowest digits of a number, in bases `m` and `k`, are its remainder. */
  lemma TwoDigits(x: nat, m: nat, k: nat)
    requires m > 0 && k > 0
    ensures k * m > 0 && x % (k * m) == x / m % k * m + x % m
  {
    var q, r := x / m, x % m;
    var h, d := q / k, q % k;
    DigitAlgebra(m, k, h, d);
    MulMonotone(k, 1, m);
    QuotientBounds(x, m);
    DigitsBelow(m, k, d, r);
    DivModUnique(x, k * m, h, d * m + r);
  }

  lemma DigitAlgebra(m: int, k: int, h: int, d: int)
    ensures m * (k * h + d) == (k * m) * h + d * m
  {
  }

  /** Decoding any word, then encoding its parts, returns it modulo 2^bits. */
  lemma DecodeThenEncode(bits: PrioBits, group: Word, priority: Word)
    ensures EncodePriority(bits, group, PreemptOf(bits, priority, group), SubOf(bits, priority, group))
         == priority % Pow2(bits)
  {
    var p, s := PreemptOf(bits, priority, group), SubOf(bits, priority, group);
    DecodedBounds(bits, group, priority);
    DecodedParts(bits, group, priority);
    EncodedValue(bits, group, p, s);
    SmallMod(p, Pow2(PreemptBits(bits, group)));
    SmallMod(s, Pow2(SubBits(bits, group)));
  }

  lemma FittingParts(bits: PrioBits, group: Word, priority: Word)
    requires priority < Pow2(bits)
    ensures SubOf(bits, priority, group) < Pow2(SubBits(bits, group))
    ensures priority == PreemptOf(bits, priority, group) * Pow2(SubBits(bits, group)) + SubOf(bits, priority, group)
  {
    DecodedBounds(bits, group, priority);
    DecodedParts(bits, group, priority);
    SmallMod(priority, Pow2(bits));
  }

  /** Numeric order of priorities is lexicographic order of (preempt, sub). */
  lemma OrderIsLexicographic(bits: PrioBits, group: Word, a: Word, b: Word)
    requires a < Pow2(bits) && b < Pow2(bits)
    ensures a < b <==>
      || PreemptOf(bits, a, group) < PreemptOf(bits, b, group)
      || (PreemptOf(bits, a, group) == PreemptOf(bits, b, group) && SubOf(bits, a, group) < SubOf(bits, b, group))
  {
    FittingParts(bits, group, a);
    FittingParts(bits, group, b);
    DigitOrder(Pow2(SubBits(bits, group)),
               PreemptOf(bits, a, group), SubOf(bits, a, group),
               PreemptOf(bits, b, group), SubOf(bits, b, group));
  }

  lemma DigitOrder(m: nat, p: nat, s: nat, q: nat, t: nat)
    requires s < m && t < m
    ensures p * m + s < q * m + t <==> p < q || (p == q && s < t)
  {
    if p < q {
      MulMonotone(m, p + 1, q);
      assert (p + 1) * m == p * m + m;
    } else if p > q {
      MulMonotone(m, q + 1, p);
      assert (q + 1) * m == q * m + m;
    }
  }

  // ----- The priority byte -----

  type Byte = x: int | 0 <= x < 256

  function StoredByte(bits: PrioBits, priority: Word): Byte {
    And(Shl(priority, 8 - bits), 0xFF)
  }

  function LoadedPriority(bits: PrioBits, stored: Byte): Word {
    Shr(stored, 8 - bits)
  }

  lemma StoredValue(bits: PrioBits, priority: Word)
    ensures StoredByte(bits, priority) == priority % Pow2(bits) * Pow2(8 - bits)
  {
    var shift := 8 - bits;
    var scaled := priority * Pow2(shift);
    Pow2Values();
    AndMask(Shl(priority, shift), 8);
    ModPow2OfMod(scaled, 8, 32);
    Pow2Add(bits, shift);
    ScaleMod(priority, Pow2(bits), Pow2(shift));
  }

  lemma ScaleMod(x: nat, m: nat, k: nat)
    requires m > 0 && k > 0
    ensures m * k > 0 && (x * k) % (m * k) == x % m * k
  {
    var q, r := x / m, x % m;
    assert m * k > 0;
    assert (m * q + r) * k == (m * k) * q + r * k;
    DigitsBelow(k, m, r, 0);
    DivModUnique(x * k, m * k, q, r * k);
  }

  /** Reading a priority back returns it modulo 2^bits. */
  lemma StoreThenLoad(bits: PrioBits, priority: Word)
    ensures LoadedPriority(bits, StoredByte(bits, priority)) == priority % Pow2(bits)
  {
    StoredValue(bits, priority);
    ScaledBack(StoredByte(bits, priority), priority % Pow2(bits), 8 - bits);
  }

  lemma ScaledBack(scaled: nat, x: nat, k: nat)
    requires scaled == x * Pow2(k)
    ensures Shr(scaled, k) == x
  {
    DivModUnique(scaled, Pow2(k), x, 0);
  }

  /** Encode, store, load, decode: both parts come back modulo their widths. */
  lemma ProgrammedPriority(bits: PrioBits, group: Word, preempt: Word, sub: Word)
    ensures
      var loaded := LoadedPriority(bits, StoredByte(bits, EncodePriority(bits, group, preempt, sub)));
      && PreemptOf(bits, loaded, group) == preempt % Pow2(PreemptBits(bits, group))
      && SubOf(bits, loaded, group) == sub % Pow2(SubBits(bits, group))
  {
    var encoded := EncodePriority(bits, group, preempt, sub);
    EncodedValue(bits, group, preempt, sub);
    StoreThenLoad(bits, encoded);
    SmallMod(encoded, Pow2(bits));
    EncodeThenDecode(bits, group, preempt, sub);
  }

  /** Stored bytes compare the way their decoded parts do. */
  lemma StoredOrder(bits: PrioBits, group: Word, a: Word, b: Word)
    requires a < Pow2(bits) && b < Pow2(bits)
    ensures StoredByte(bits, a) < StoredByte(bits, b) <==>
      || PreemptOf(bits, a, group) < PreemptOf(bits, b, group)
      || (PreemptOf(bits, a, group) == PreemptOf(bits, b, group) && SubOf(bits, a, group) < SubOf(bits, b, group))
  {
    StoredValue(bits, a);
    StoredValue(bits, b);
    SmallMod(a, Pow2(bits));
    SmallMod(b, Pow2(bits));
    DigitOrder(Pow2(8 - bits), a, 0, b, 0);
    OrderIsLexicographic(bits, group, a, b);
  }

  // ----- The split that the hardware makes of the stored byte: bits 7 to g + 1 decide preemption -----

  /** When the group leaves room for sub-priority, the byte's upper part is the preempt field. */
  lemma StoredSplit(bits: PrioBits, group: Word, a: Word)
    requires PreemptBits(bits, group) == 7 - group % 8
    ensures StoredByte(bits, a) / Pow2(group % 8 + 1) == PreemptOf(bits, a, group)
    ensures StoredByte(bits, a) % Pow2(group % 8 + 1) == SubOf(bits, a, group) * Pow2(8 - bits)
  {
    var low, shift := SubBits(bits, group), 8 - bits;
    var p, s := PreemptOf(bits, a, group), SubOf(bits, a, group);
    WidthsSum(bits, group);
    StoredValue(bits, a);
    DecodedParts(bits, group, a);
    DecodedBounds(bits, group, a);
    Pow2Add(low, shift);
    FieldsScaled(p, s, Pow2(low), Pow2(shift));
    DigitsBelow(Pow2(shift), Pow2(low), s, 0);
    SplitDigits(p, s * Pow2(shift), Pow2(low + shift));
  }

  lemma FieldsScaled(p: nat, s: nat, m: nat, k: nat)
    ensures (p * m + s) * k == p * (m * k) + s * k
  {
  }

  /** When it leaves none, the byte ends above the part that decides on sub-priority. */
  lemma StoredWhole(bits: PrioBits, group: Word, a: Word)
    requires PreemptBits(bits, group) == bits && bits <= 7 - group % 8
    ensures StoredByte(bits, a) / Pow2(group % 8 + 1) == PreemptOf(bits, a, group) * Pow2(7 - group % 8 - bits)
    ensures StoredByte(bits, a) % Pow2(group % 8 + 1) == 0 && SubOf(bits, a, group) == 0
  {
    OnlyPreempt(bits, group, a);
    UpperPart(StoredByte(bits, a), PreemptOf(bits, a, group), 7 - group % 8 - bits, group % 8 + 1);
  }

  lemma OnlyPreempt(bits: PrioBits, group: Word, a: Word)
    requires PreemptBits(bits, group) == bits
    ensures StoredByte(bits, a) == PreemptOf(bits, a, group) * Pow2(8 - bits) && SubOf(bits, a, group) == 0
  {
    StoredValue(bits, a);
    WidthsSum(bits, group);
    DecodedParts(bits, group, a);
    DecodedBounds(bits, group, a);
    LastDigitNone(SubBits(bits, group), PreemptOf(bits, a, group), SubOf(bits, a, group));
  }

  lemma LastDigitNone(low: nat, p: nat, s: nat)
    requires low == 0 && s < Pow2(low)
    ensures s == 0 && p * Pow2(low) + s == p
  {
  }

  lemma UpperPart(stored: nat, p: nat, rest: nat, m: nat)
    requires stored == p * Pow2(rest + m)
    ensures stored / Pow2(m) == p * Pow2(rest) && stored % Pow2(m) == 0
  {
    Pow2Add(rest, m);
    FieldsScaled(p, 0, Pow2(rest), Pow2(m));
    SplitDigits(p * Pow2(rest), 0, Pow2(m));
  }

  lemma ScaledOrder(x: nat, y: nat, m: nat)
    requires m > 0
    ensures x < y <==> x * m < y * m
  {
    if x < y {
      MulMonotone(m, x + 1, y);
    } else {
      MulMonotone(m, y, x);
    }
  }

  /** One priority preempts another exactly when its byte is lower in bits 7 to g + 1, where g is the group, and
      its sub-priority is higher exactly when its byte is lower in the bits below: for all words, groups and
      numbers of bits. */
  lemma HardwareOrder(bits: PrioBits, group: Word, a: Word, b: Word)
    ensures PreemptOf(bits, a, group) < PreemptOf(bits, b, group)
       <==> StoredByte(bits, a) / Pow2(group % 8 + 1) < StoredByte(bits, b) / Pow2(group % 8 + 1)
    ensures SubOf(bits, a, group) < SubOf(bits, b, group)
       <==> StoredByte(bits, a) % Pow2(group % 8 + 1) < StoredByte(bits, b) % Pow2(group % 8 + 1)
  {
    GroupValue(group);
    if 7 - group % 8 <= bits {
      StoredSplit(bits, group, a);
      StoredSplit(bits, group, b);
      ScaledOrder(SubOf(bits, a, group), SubOf(bits, b, group), Pow2(8 - bits));
    } else {
      StoredWhole(bits, group, a);
      StoredWhole(bits, group, b);
      ScaledOrder(PreemptOf(bits, a, group), PreemptOf(bits, b, group), Pow2(7 - group % 8 - bits));
    }
  }
}
