/** Register bit fields: the `_VAL2FLD` and `_FLD2VAL` macros of CMSIS/core_cm3.h for a field given
    by its position and width, and single-bit masks. */
module Fields {
  import opened Words
  import opened Bits

  /** The `_Msk` constant of a field, e.g. `0x7UL << 24`. */
  function Mask(pos: nat, width: nat): Word
    requires pos + width <= 32
  {
    Pow2Values();
    Pow2Monotone(width, 32);
    Shl(Pow2(width) - 1, pos)
  }

  function Val2Fld(pos: nat, width: nat, value: Word): Word
    requires pos + width <= 32
  {
    And(Shl(value, pos), Mask(pos, width))
  }

  function Fld2Val(pos: nat, width: nat, value: Word): Word
    requires pos + width <= 32
  {
    Shr(And(value, Mask(pos, width)), pos)
  }

  lemma MaskBit(pos: nat, width: nat, i: nat)
    requires pos + width <= 32
    ensures Bit(Mask(pos, width), i) <==> pos <= i < pos + width
  {
    var ones := Pow2(width) - 1;
    Pow2Values();
    Pow2Monotone(width, 32);
    ShlBit(ones, pos, i);
    if pos <= i < pos + width {
      ComplementBit(width, 0, i - pos);
      ZeroBit(i - pos);
    } else if i >= pos + width {
      HighBitsClear(width, ones, i - pos);
    }
  }

  lemma Val2FldBit(pos: nat, width: nat, value: Word, i: nat)
    requires pos + width <= 32
    ensures Bit(Val2Fld(pos, width, value), i) <==> pos <= i < pos + width && Bit(value, i - pos)
  {
    AndBit(Shl(value, pos), Mask(pos, width), i);
    ShlBit(value, pos, i);
    MaskBit(pos, width, i);
  }

  lemma Fld2ValBit(pos: nat, width: nat, value: Word, i: nat)
    requires pos + width <= 32
    ensures Bit(Fld2Val(pos, width, value), i) <==> i < width && Bit(value, i + pos)
  {
    ShrBit(And(value, Mask(pos, width)), pos, i);
    AndBit(value, Mask(pos, width), i + pos);
    MaskBit(pos, width, i + pos);
  }

  /** A field read as a number. */
  lemma FieldValue(pos: nat, width: nat, w: Word)
    requires pos + width <= 32
    ensures Fld2Val(pos, width, w) == w / Pow2(pos) % Pow2(width)
  {
    var residue := ResidueWord(Shr(w, pos), width);
    forall i: nat | i < 32
      ensures Bit(Fld2Val(pos, width, w), i) == Bit(residue, i)
    {
      Fld2ValBit(pos, width, w, i);
      ModBit(Shr(w, pos), width, i);
      ShrBit(w, pos, i);
    }
    SameWord(Fld2Val(pos, width, w), residue);
  }

  /** `w` carries `value` in the field at `pos`. */
  ghost predicate Carries(w: Word, pos: nat, width: nat, value: Word) {
    forall i: nat :: i < width ==> Bit(w, pos + i) == Bit(value, i)
  }

  function ResidueWord(value: Word, width: nat): (r: Word)
    ensures r == value % Pow2(width)
  {
    ResidueBounds(value, Pow2(width));
    value % Pow2(width)
  }

  lemma ResidueBounds(x: nat, m: nat)
    requires m > 0
    ensures 0 <= x % m <= x
  {
    QuotientBounds(x, m);
    MulMonotone(m, 0, x / m);
    assert x == m * (x / m) + x % m;
  }

  /** Extracting a field returns what it carries, truncated to the field's width. */
  lemma ExtractCarried(w: Word, pos: nat, width: nat, value: Word)
    requires pos + width <= 32
    requires Carries(w, pos, width, value)
    ensures Fld2Val(pos, width, w) == value % Pow2(width)
  {
    var residue: Word := ResidueWord(value, width);
    forall i: nat | i < 32
      ensures Bit(Fld2Val(pos, width, w), i) == Bit(residue, i)
    {
      Fld2ValBit(pos, width, w, i);
      ModBit(value, width, i);
      assert i < width ==> Bit(w, pos + i) == Bit(value, i);
    }
    SameWord(Fld2Val(pos, width, w), residue);
  }

  // ----- Single bits -----

  function WithBit(w: Word, k: nat): Word
    requires k < 32
  {
    OrWord(w, Shl(1, k))
  }

  function WithoutBit(w: Word, k: nat): Word
    requires k < 32
  {
    And(w, Not(Shl(1, k)))
  }

  lemma WithBitBit(w: Word, k: nat, i: nat)
    requires k < 32
    ensures Bit(WithBit(w, k), i) <==> Bit(w, i) || i == k
  {
    OneShifted(k);
    OrBit(w, Pow2(k), i);
    PowerBit(k, i);
  }

  lemma WithoutBitBit(w: Word, k: nat, i: nat)
    requires k < 32 && i < 32
    ensures Bit(WithoutBit(w, k), i) <==> Bit(w, i) && i != k
  {
    OneShifted(k);
    AndBit(w, Not(Pow2(k)), i);
    NotBit(Pow2(k), i);
    PowerBit(k, i);
  }

  /** `(w & (1UL << k)) != 0` tests bit k. */
  lemma TestBit(w: Word, k: nat)
    requires k < 32
    ensures And(w, Shl(1, k)) != 0 <==> Bit(w, k)
  {
    OneShifted(k);
    if Bit(w, k) {
      AndBit(w, Pow2(k), k);
      PowerBit(k, k);
      ZeroBit(k);
    } else {
      forall i: nat | i < 32
        ensures Bit(And(w, Pow2(k)), i) == Bit(0, i)
      {
        AndBit(w, Pow2(k), i);
        PowerBit(k, i);
        ZeroBit(i);
      }
      SameWord(And(w, Pow2(k)), 0);
    }
  }
}
