/** The MPU region registers (section B3.5 of the ARMv7-M Architecture Reference Manual) and the
    region tables of CMSIS/mpu_armv7.h as values. */
module MpuRegisters {
  import opened Words
  import opened Bits
  import opened Fields

  const REGIONS: nat := 256

  datatype Region = Region(base: Word, attributes: Word)

  /** One row of a configuration table: the words for RBAR and RASR. */
  datatype Entry = Entry(rbar: Word, rasr: Word)

  type RegionFile = f: seq<Region> | |f| == 256 witness seq(256, _ => Region(0, 0))

  /** The selected region number and the contents of all regions. */
  datatype State = State(rnr: nat, regions: RegionFile)

  ghost predicate Valid(st: State) {
    st.rnr < REGIONS
  }

  predicate SelectsRegion(rbar: Word) {
    Bit(rbar, 4)
  }

  function RegionField(rbar: Word): nat {
    rbar % 16
  }

  function AddressField(rbar: Word): Word {
    rbar - rbar % 32
  }

  /** The fields are those that the masks of the header cut out: VALID is bit 4, the region number is in the
      bits below it, the address in units of 32 bytes above. */
  lemma RbarParts(rbar: Word)
    ensures SelectsRegion(rbar) <==> And(rbar, Mask(4, 1)) != 0
    ensures SelectsRegion(rbar) <==> rbar / 16 % 2 == 1
    ensures RegionField(rbar) == And(rbar, Mask(0, 4)) == rbar % 16
    ensures AddressField(rbar) == And(rbar, Mask(5, 27)) == rbar / 32 * 32
  {
    ValidPart(rbar);
    RegionPart(rbar);
    AddressPart(rbar);
  }

  lemma RbarNumbers(rbar: Word)
    ensures SelectsRegion(rbar) <==> rbar / 16 % 2 == 1
    ensures RegionField(rbar) == rbar % 16 && AddressField(rbar) == rbar / 32 * 32
  {
    RbarParts(rbar);
  }

  lemma ValidPart(rbar: Word)
    ensures SelectsRegion(rbar) <==> And(rbar, Mask(4, 1)) != 0
    ensures SelectsRegion(rbar) <==> rbar / 16 % 2 == 1
  {
    Pow2Values();
    assert Pow2(1) == 2;
    assert Mask(4, 1) == Shl(1, 4);
    TestBit(rbar, 4);
    ShrBit(rbar, 4, 0);
  }

  lemma RegionPart(rbar: Word)
    ensures RegionField(rbar) == And(rbar, Mask(0, 4))
  {
    Pow2Values();
    SmallMod(15, TWO_32);
    AndMask(rbar, 4);
    assert Mask(0, 4) == 15;
  }

  lemma AddressPart(rbar: Word)
    ensures AddressField(rbar) == And(rbar, Mask(5, 27)) == rbar / 32 * 32
  {
    var address := And(rbar, Mask(5, 27));
    Pow2Values();
    forall i: nat | i < 32
      ensures Bit(address, i) <==> i >= 5 && Bit(rbar, i)
    {
      AndBit(rbar, Mask(5, 27), i);
      MaskBit(5, 27, i);
    }
    SameHighBits(address, rbar);
    forall i: nat | i < 5
      ensures Bit(address % 32, i) == Bit(0, i)
    {
      ModBit(address, 5, i);
      ZeroBit(i);
    }
    SameBits(5, address % 32, 0);
  }

  // ----- Register writes -----

  /** With VALID set, RBAR also selects the region named in its low four bits. */
  function WriteRbar(st: State, value: Word): (r: State)
    requires Valid(st)
    ensures Valid(r)
  {
    var rnr := if SelectsRegion(value) then RegionField(value) else st.rnr;
    State(rnr, st.regions[rnr := st.regions[rnr].(base := AddressField(value))])
  }

  function WriteRasr(st: State, value: Word): (r: State)
    requires Valid(st)
    ensures Valid(r)
  {
    st.(regions := st.regions[st.rnr := st.regions[st.rnr].(attributes := value)])
  }

  /** Word offsets 3, 5, 7, 9 are RBAR and its aliases; 4, 6, 8, 10 are RASR and its aliases. */
  function WriteWord(st: State, offset: nat, value: Word): (r: State)
    requires Valid(st) && 3 <= offset <= 10
    ensures Valid(r)
  {
    if offset % 2 == 1 then WriteRbar(st, value) else WriteRasr(st, value)
  }

  function WriteWords(st: State, offset: nat, words: seq<Word>): (r: State)
    requires Valid(st) && 3 <= offset && offset + |words| <= 11
    ensures Valid(r)
    decreases |words|
  {
    if words == [] then st
    else WriteWord(WriteWords(st, offset, words[..|words| - 1]), offset + |words| - 1, words[|words| - 1])
  }

  // ----- Configuring regions one at a time -----

  function SetRegion(st: State, e: Entry): (r: State)
    requires Valid(st)
    ensures Valid(r)
  {
    WriteRasr(WriteRbar(st, e.rbar), e.rasr)
  }

  function SetRegions(st: State, table: seq<Entry>): (r: State)
    requires Valid(st)
    ensures Valid(r)
    decreases |table|
  {
    if table == [] then st
    else SetRegion(SetRegions(st, table[..|table| - 1]), table[|table| - 1])
  }

  lemma {:induction false} SetRegionsAppend(st: State, a: seq<Entry>, b: seq<Entry>)
    requires Valid(st)
    ensures SetRegions(st, a + b) == SetRegions(SetRegions(st, a), b)
    decreases |b|
  {
    if b == [] {
      assert a + b == a;
    } else {
      SetRegionsAppend(st, a, b[..|b| - 1]);
      assert (a + b)[..|a + b| - 1] == a + b[..|b| - 1];
    }
  }

  /** The table as the words that lie in memory. */
  function Flat(table: seq<Entry>): (words: seq<Word>)
    ensures |words| == 2 * |table|
  {
    seq(2 * |table|, i requires 0 <= i < 2 * |table| =>
      if i % 2 == 0 then table[i / 2].rbar else table[i / 2].rasr)
  }

  /** Up to four entries pushed through consecutive aliases are entries set one at a time. */
  lemma {:induction false} AliasesSetRegions(st: State, table: seq<Entry>)
    requires Valid(st) && |table| <= 4
    ensures WriteWords(st, 3, Flat(table)) == SetRegions(st, table)
    decreases |table|
  {
    if table == [] {
    } else {
      var n := |table|;
      var before := table[..n - 1];
      AliasesSetRegions(st, before);
      FlatSnoc(table);
      WriteWordsAppend(st, 3, Flat(before), [table[n - 1].rbar, table[n - 1].rasr]);
      PairSetsRegion(WriteWords(st, 3, Flat(before)), 3 + |Flat(before)|, table[n - 1]);
    }
  }

  lemma FlatSnoc(table: seq<Entry>)
    requires table != []
    ensures
      var n := |table| - 1;
      Flat(table) == Flat(table[..n]) + [table[n].rbar, table[n].rasr]
  {
  }

  lemma {:induction false} WriteWordsAppend(st: State, offset: nat, a: seq<Word>, b: seq<Word>)
    requires Valid(st) && 3 <= offset && offset + |a| + |b| <= 11
    ensures WriteWords(st, offset, a + b) == WriteWords(WriteWords(st, offset, a), offset + |a|, b)
    decreases |b|
  {
    if b == [] {
      assert a + b == a;
    } else {
      WriteWordsAppend(st, offset, a, b[..|b| - 1]);
      assert (a + b)[..|a + b| - 1] == a + b[..|b| - 1];
    }
  }

  /** Two words at an odd offset are one region. */
  lemma PairSetsRegion(st: State, offset: nat, e: Entry)
    requires Valid(st) && 3 <= offset <= 9 && offset % 2 == 1
    ensures WriteWords(st, offset, [e.rbar, e.rasr]) == SetRegion(st, e)
  {
    assert [e.rbar][..0] == [];
    assert WriteWords(st, offset, [e.rbar]) == WriteRbar(st, e.rbar);
    assert [e.rbar, e.rasr][..1] == [e.rbar];
    assert (offset + 1) % 2 == 0;
  }

  lemma NextRows(st: State, table: seq<Entry>, k: nat, n: nat)
    requires Valid(st) && k + n <= |table|
    ensures SetRegions(st, table[..k + n]) == SetRegions(SetRegions(st, table[..k]), table[k..][..n])
  {
    assert table[..k] + table[k..][..n] == table[..k + n];
    SetRegionsAppend(st, table[..k], table[k..][..n]);
  }

  // ----- What a table leaves behind -----

  /** The region that entry `i` configures: its own if VALID, else the one selected before. */
  function Target(rnr: nat, table: seq<Entry>, i: nat): nat
    requires i < |table|
  {
    if SelectsRegion(table[i].rbar) then RegionField(table[i].rbar)
    else if i == 0 then rnr else Target(rnr, table, i - 1)
  }

  /** A row with VALID set targets the region in its low four bits, any other the region targeted before it. */
  lemma TargetExactly(rnr: nat, table: seq<Entry>, i: nat)
    requires i < |table|
    ensures table[i].rbar / 16 % 2 == 1 ==> Target(rnr, table, i) == table[i].rbar % 16
    ensures table[i].rbar / 16 % 2 == 0 ==> Target(rnr, table, i) == if i == 0 then rnr else Target(rnr, table, i - 1)
  {
    RbarNumbers(table[i].rbar);
  }

  lemma RowAtRegion(st: State, e: Entry, k: nat)
    requires Valid(st) && k == if SelectsRegion(e.rbar) then RegionField(e.rbar) else st.rnr
    ensures k < REGIONS && SetRegion(st, e).rnr == k
    ensures SetRegion(st, e).regions == st.regions[k := Region(AddressField(e.rbar), e.rasr)]
  {
  }

  /** Configuring one region: it is selected, gets base and attributes, and every other region stays. */
  lemma OneRow(st: State, e: Entry, k: nat)
    requires Valid(st) && k == if e.rbar / 16 % 2 == 1 then e.rbar % 16 else st.rnr
    ensures k < REGIONS && SetRegion(st, e).rnr == k
    ensures SetRegion(st, e).regions[k].base == e.rbar / 32 * 32
    ensures SetRegion(st, e).regions[k].attributes == e.rasr
    ensures forall i: nat :: i < REGIONS && i != k ==> SetRegion(st, e).regions[i] == st.regions[i]
  {
    RbarNumbers(e.rbar);
    RowAtRegion(st, e, k);
    OneRegionChanged(st.regions, SetRegion(st, e).regions, k, Region(AddressField(e.rbar), e.rasr));
  }

  lemma OneRegionChanged(before: RegionFile, after: RegionFile, k: nat, r: Region)
    requires k < REGIONS && after == before[k := r]
    ensures after[k].base == r.base && after[k].attributes == r.attributes
    ensures forall i: nat :: i < REGIONS && i != k ==> after[i] == before[i]
  {
  }

  lemma {:induction false} TargetOfPrefix(rnr: nat, table: seq<Entry>, n: nat, i: nat)
    requires i < n <= |table|
    ensures Target(rnr, table[..n], i) == Target(rnr, table, i)
  {
    if i == 0 {
    } else {
      TargetOfPrefix(rnr, table, n, i - 1);
    }
  }

  lemma {:induction false} SelectedAfter(st: State, table: seq<Entry>)
    requires Valid(st)
    ensures SetRegions(st, table).rnr == if table == [] then st.rnr else Target(st.rnr, table, |table| - 1)
    decreases |table|
  {
    if table == [] {
    } else {
      var n := |table|;
      SelectedAfter(st, table[..n - 1]);
      if n > 1 {
        TargetOfPrefix(st.rnr, table, n - 1, n - 2);
      }
    }
  }

  lemma {:induction false} LastTargetWins(st: State, table: seq<Entry>, k: nat, last: int)
    requires Valid(st) && k < REGIONS && -1 <= last < |table|
    requires last >= 0 ==> Target(st.rnr, table, last) == k
    requires forall i: nat :: last < i < |table| ==> Target(st.rnr, table, i) != k
    ensures SetRegions(st, table).regions[k]
         == if last < 0 then st.regions[k] else Region(AddressField(table[last].rbar), table[last].rasr)
    decreases |table|
  {
    if table == [] {
    } else {
      var n := |table|;
      var before := table[..n - 1];
      SelectedAfter(st, table);
      if last < n - 1 {
        assert Target(st.rnr, table, n - 1) != k;
        forall i: nat | i < n - 1
          ensures Target(st.rnr, before, i) == Target(st.rnr, table, i)
        {
          TargetOfPrefix(st.rnr, table, n - 1, i);
        }
        if last >= 0 {
          TargetOfPrefix(st.rnr, table, n - 1, last);
        }
        LastTargetWins(st, before, k, last);
      }
    }
  }

  /** Each region ends up as the last entry that targets it; regions no entry targets keep their contents. */
  lemma LastEntryWins(st: State, table: seq<Entry>, k: nat, last: int)
    requires Valid(st) && k < REGIONS && -1 <= last < |table|
    requires last >= 0 ==> Target(st.rnr, table, last) == k
    requires forall i: nat :: last < i < |table| ==> Target(st.rnr, table, i) != k
    ensures last < 0 ==> SetRegions(st, table).regions[k] == st.regions[k]
    ensures last >= 0 ==> SetRegions(st, table).regions[k].base == table[last].rbar / 32 * 32
    ensures last >= 0 ==> SetRegions(st, table).regions[k].attributes == table[last].rasr
  {
    LastTargetWins(st, table, k, last);
    if last >= 0 {
      RbarNumbers(table[last].rbar);
    }
  }

  // ----- The table-building macros -----

  function Rbar(region: Word, baseAddress: Word): Word {
    OrWord(OrWord(And(baseAddress, Mask(5, 27)), And(region, Mask(0, 4))), Mask(4, 1))
  }

  /** The RBAR word selects the region modulo 16 and carries the address rounded down to 32 bytes. */
  lemma RbarFields(region: Word, baseAddress: Word)
    ensures SelectsRegion(Rbar(region, baseAddress))
    ensures RegionField(Rbar(region, baseAddress)) == region % 16
    ensures AddressField(Rbar(region, baseAddress)) == baseAddress / 32 * 32
  {
    var w := Rbar(region, baseAddress);
    RbarBit(region, baseAddress, 4);
    assert Pow2(4) == 16 && Pow2(5) == 32;
    forall i: nat | i < 4
      ensures Bit(w % 16, i) == Bit(region % 16, i)
    {
      RbarBit(region, baseAddress, i);
      ModBit(w, 4, i);
      ModBit(region, 4, i);
    }
    SameBits(4, w % 16, region % 16);
    SameHighBits(w, baseAddress) by {
      forall i: nat | 5 <= i < 32
        ensures Bit(w, i) == Bit(baseAddress, i)
      {
        RbarBit(region, baseAddress, i);
      }
    }
  }

  lemma RbarBit(region: Word, baseAddress: Word, i: nat)
    requires i < 32
    ensures Bit(Rbar(region, baseAddress), i)
       <==> if i < 4 then Bit(region, i) else i == 4 || Bit(baseAddress, i)
  {
    var address, number := And(baseAddress, Mask(5, 27)), And(region, Mask(0, 4));
    OrBit(OrWord(address, number), Mask(4, 1), i);
    OrBit(address, number, i);
    AndBit(baseAddress, Mask(5, 27), i);
    AndBit(region, Mask(0, 4), i);
    MaskBit(5, 27, i);
    MaskBit(0, 4, i);
    MaskBit(4, 1, i);
  }

  lemma SameHighBits(x: Word, y: Word)
    requires forall i: nat :: 5 <= i < 32 ==> Bit(x, i) == Bit(y, i)
    ensures x - x % 32 == y - y % 32
  {
    assert Pow2(5) == 32;
    forall i: nat | i < 32
      ensures Bit(Shr(x, 5), i) == Bit(Shr(y, 5), i)
    {
      ShrBit(x, 5, i);
      ShrBit(y, 5, i);
      if i + 5 >= 32 {
        Pow2Values();
        HighBitsClear(32, x, i + 5);
        HighBitsClear(32, y, i + 5);
      }
    }
    SameWord(Shr(x, 5), Shr(y, 5));
    assert x == 32 * (x / 32) + x % 32 && y == 32 * (y / 32) + y % 32;
  }

  datatype Attributes = Attributes(disableExec: Word, accessPermission: Word, typeExtField: Word,
                                   isShareable: Word, isCacheable: Word, isBufferable: Word,
                                   subRegionDisable: Word, size: Word)

  function Access(a: Attributes): Word {
    OrWord(OrWord(OrWord(
      Val2Fld(19, 3, a.typeExtField),
      Val2Fld(18, 1, a.isShareable)),
      Val2Fld(17, 1, a.isCacheable)),
      Val2Fld(16, 1, a.isBufferable))
  }

  function AccessMask(): Word {
    OrWord(OrWord(OrWord(Mask(19, 3), Mask(18, 1)), Mask(17, 1)), Mask(16, 1))
  }

  function Rasr(a: Attributes): Word {
    OrWord(OrWord(OrWord(OrWord(OrWord(
      Val2Fld(28, 1, a.disableExec),
      Val2Fld(24, 3, a.accessPermission)),
      And(Access(a), AccessMask())),
      Val2Fld(8, 8, a.subRegionDisable)),
      Val2Fld(1, 5, a.size)),
      Mask(0, 1))
  }

  ghost predicate InField(pos: nat, width: nat, value: Word, i: nat) {
    pos <= i < pos + width && Bit(value, i - pos)
  }

  ghost predicate AccessHasBit(a: Attributes, i: nat) {
    || InField(19, 3, a.typeExtField, i)
    || InField(18, 1, a.isShareable, i)
    || InField(17, 1, a.isCacheable, i)
    || InField(16, 1, a.isBufferable, i)
  }

  ghost predicate RasrHasBit(a: Attributes, i: nat) {
    || InField(28, 1, a.disableExec, i)
    || InField(24, 3, a.accessPermission, i)
    || AccessHasBit(a, i)
    || InField(8, 8, a.subRegionDisable, i)
    || InField(1, 5, a.size, i)
    || i == 0
  }

  lemma OrFourBit(w: Word, x: Word, y: Word, z: Word, i: nat)
    ensures Bit(OrWord(OrWord(OrWord(w, x), y), z), i) <==> Bit(w, i) || Bit(x, i) || Bit(y, i) || Bit(z, i)
  {
    OrBit(OrWord(OrWord(w, x), y), z, i);
    OrBit(OrWord(w, x), y, i);
    OrBit(w, x, i);
  }

  lemma AccessBit(a: Attributes, i: nat)
    ensures Bit(And(Access(a), AccessMask()), i) <==> AccessHasBit(a, i)
  {
    AndBit(Access(a), AccessMask(), i);
    OrFourBit(Val2Fld(19, 3, a.typeExtField), Val2Fld(18, 1, a.isShareable),
              Val2Fld(17, 1, a.isCacheable), Val2Fld(16, 1, a.isBufferable), i);
    OrFourBit(Mask(19, 3), Mask(18, 1), Mask(17, 1), Mask(16, 1), i);
    Val2FldBit(19, 3, a.typeExtField, i);
    Val2FldBit(18, 1, a.isShareable, i);
    Val2FldBit(17, 1, a.isCacheable, i);
    Val2FldBit(16, 1, a.isBufferable, i);
    MaskBit(19, 3, i);
    MaskBit(18, 1, i);
    MaskBit(17, 1, i);
    MaskBit(16, 1, i);
  }

  lemma OrSixBit(u: Word, v: Word, w: Word, x: Word, y: Word, z: Word, i: nat)
    ensures Bit(OrWord(OrWord(OrWord(OrWord(OrWord(u, v), w), x), y), z), i)
       <==> Bit(u, i) || Bit(v, i) || Bit(w, i) || Bit(x, i) || Bit(y, i) || Bit(z, i)
  {
    var four := OrWord(OrWord(OrWord(u, v), w), x);
    OrBit(OrWord(four, y), z, i);
    OrBit(four, y, i);
    OrFourBit(u, v, w, x, i);
  }

  lemma RasrBit(a: Attributes, i: nat)
    ensures Bit(Rasr(a), i) <==> RasrHasBit(a, i)
  {
    OrSixBit(Val2Fld(28, 1, a.disableExec), Val2Fld(24, 3, a.accessPermission), And(Access(a), AccessMask()),
             Val2Fld(8, 8, a.subRegionDisable), Val2Fld(1, 5, a.size), Mask(0, 1), i);
    Val2FldBit(28, 1, a.disableExec, i);
    Val2FldBit(24, 3, a.accessPermission, i);
    AccessBit(a, i);
    Val2FldBit(8, 8, a.subRegionDisable, i);
    Val2FldBit(1, 5, a.size, i);
    MaskBit(0, 1, i);
  }

  lemma RasrField(a: Attributes, pos: nat, width: nat, value: Word)
    requires pos + width <= 32
    requires forall i: nat :: i < width ==> (RasrHasBit(a, pos + i) <==> Bit(value, i))
    ensures Fld2Val(pos, width, Rasr(a)) == value % Pow2(width)
  {
    forall i: nat | i < width
      ensures Bit(Rasr(a), pos + i) == Bit(value, i)
    {
      RasrBit(a, pos + i);
    }
    ExtractCarried(Rasr(a), pos, width, value);
  }

  /** No field of the RASR word disturbs another: each reads back as given, truncated to its width. */
  lemma RasrPermission(a: Attributes)
    ensures Fld2Val(24, 3, Rasr(a)) == a.accessPermission % 8
  {
    assert Pow2(3) == 8;
    RasrField(a, 24, 3, a.accessPermission);
  }

  lemma RasrExecuteNever(a: Attributes)
    ensures Fld2Val(28, 1, Rasr(a)) == a.disableExec % 2
  {
    assert Pow2(1) == 2;
    RasrField(a, 28, 1, a.disableExec);
  }

  lemma RasrEnables(a: Attributes)
    ensures Fld2Val(0, 1, Rasr(a)) == 1
  {
    assert Pow2(1) == 2;
    RasrField(a, 0, 1, 1);
  }

  lemma RasrType(a: Attributes)
    ensures Fld2Val(19, 3, Rasr(a)) == a.typeExtField % 8
  {
    assert Pow2(3) == 8;
    RasrField(a, 19, 3, a.typeExtField);
  }

  lemma RasrShareable(a: Attributes)
    ensures Fld2Val(18, 1, Rasr(a)) == a.isShareable % 2
  {
    assert Pow2(1) == 2;
    RasrField(a, 18, 1, a.isShareable);
  }

  lemma RasrCacheable(a: Attributes)
    ensures Fld2Val(17, 1, Rasr(a)) == a.isCacheable % 2
  {
    assert Pow2(1) == 2;
    RasrField(a, 17, 1, a.isCacheable);
  }

  lemma RasrBufferable(a: Attributes)
    ensures Fld2Val(16, 1, Rasr(a)) == a.isBufferable % 2
  {
    assert Pow2(1) == 2;
    RasrField(a, 16, 1, a.isBufferable);
  }

  /** TEX, S, C and B read back as given. */
  lemma RasrAccessFields(a: Attributes)
    ensures Fld2Val(19, 3, Rasr(a)) == a.typeExtField % 8
    ensures Fld2Val(18, 1, Rasr(a)) == a.isShareable % 2
    ensures Fld2Val(17, 1, Rasr(a)) == a.isCacheable % 2
    ensures Fld2Val(16, 1, Rasr(a)) == a.isBufferable % 2
  {
    RasrType(a);
    RasrShareable(a);
    RasrCacheable(a);
    RasrBufferable(a);
  }

  lemma RasrSubRegions(a: Attributes)
    ensures Fld2Val(8, 8, Rasr(a)) == a.subRegionDisable % 256
  {
    Pow2Values();
    RasrField(a, 8, 8, a.subRegionDisable);
  }

  lemma RasrSize(a: Attributes)
    ensures Fld2Val(1, 5, Rasr(a)) == a.size % 32
  {
    assert Pow2(5) == 32;
    RasrField(a, 1, 5, a.size);
  }

  lemma RasrSizeFields(a: Attributes)
    ensures Fld2Val(8, 8, Rasr(a)) == a.subRegionDisable % 256
    ensures Fld2Val(1, 5, Rasr(a)) == a.size % 32
  {
    RasrSubRegions(a);
    RasrSize(a);
  }

  // ----- Tables built by the macros -----

  datatype Descriptor = Descriptor(region: Word, baseAddress: Word, attributes: Attributes)

  function Table(ds: seq<Descriptor>): (table: seq<Entry>)
    ensures |table| == |ds|
  {
    seq(|ds|, i requires 0 <= i < |ds| => Entry(Rbar(ds[i].region, ds[i].baseAddress), Rasr(ds[i].attributes)))
  }

  lemma DescriptorTarget(rnr: nat, ds: seq<Descriptor>, i: nat)
    requires i < |ds|
    ensures Target(rnr, Table(ds), i) == ds[i].region % 16
    ensures Table(ds)[i].rbar / 32 * 32 == ds[i].baseAddress / 32 * 32
  {
    RbarFields(ds[i].region, ds[i].baseAddress);
    RbarNumbers(Table(ds)[i].rbar);
  }

  /** Loading a table of macro-built rows leaves each region as the last row that names it describes it,
      whatever was selected before. */
  lemma LastDescriptorWins(st: State, ds: seq<Descriptor>, k: nat, last: int)
    requires Valid(st) && k < REGIONS && -1 <= last < |ds|
    requires last >= 0 ==> ds[last].region % 16 == k
    requires forall i: nat :: last < i < |ds| ==> ds[i].region % 16 != k
    ensures last < 0 ==> SetRegions(st, Table(ds)).regions[k] == st.regions[k]
    ensures last >= 0 ==> SetRegions(st, Table(ds)).regions[k].base == ds[last].baseAddress / 32 * 32
    ensures last >= 0 ==> SetRegions(st, Table(ds)).regions[k].attributes == Rasr(ds[last].attributes)
  {
    var table := Table(ds);
    forall i: nat | i < |ds|
      ensures Target(st.rnr, table, i) == ds[i].region % 16
    {
      DescriptorTarget(st.rnr, ds, i);
    }
    if last >= 0 {
      DescriptorTarget(st.rnr, ds, last);
    }
    LastEntryWins(st, table, k, last);
  }
}
