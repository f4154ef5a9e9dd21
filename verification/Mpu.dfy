/** The MPU functions of CMSIS/mpu_armv7.h on a register file. */
module Mpu {
  import opened Words
  import opened MpuRegisters

  /** Word offset of RBAR in MPU_Type, and the number of RBAR/RASR pairs. */
  const RBAR_OFFSET: nat := 3
  const RALIASES: nat := 4

  class Unit {
    var rnr: nat
    const regions: array<Region>

    ghost predicate Ok()
      reads this
    {
      rnr < REGIONS && regions.Length == REGIONS
    }

    ghost function Contents(): (st: State)
      requires Ok()
      reads this, regions
      ensures Valid(st)
    {
      State(rnr, regions[..])
    }

    constructor ()
      ensures Ok() && fresh(regions)
      ensures rnr == 0 && forall i: nat :: i < REGIONS ==> regions[i] == Region(0, 0)
    {
      rnr := 0;
      regions := new Region[REGIONS](_ => Region(0, 0));
    }

    /** The hardware's reaction to a word stored at an offset between RBAR and RASR_A3. */
    method Store(offset: nat, value: Word)
      requires Ok() && 3 <= offset <= 10
      modifies this, regions
      ensures Ok() && Contents() == WriteWord(old(Contents()), offset, value)
    {
      if offset % 2 == 1 {
        if SelectsRegion(value) {
          rnr := RegionField(value);
        }
        regions[rnr] := regions[rnr].(base := AddressField(value));
      } else {
        regions[rnr] := regions[rnr].(attributes := value);
      }
    }

    method ConfigureRegion(rbar: Word, rasr: Word)
      requires Ok()
      modifies this, regions
      ensures Ok() && Contents() == SetRegion(old(Contents()), Entry(rbar, rasr))
    {
      Store(RBAR_OFFSET, rbar);
      Store(RBAR_OFFSET + 1, rasr);
    }

    method OrderedMemcpy(dst: nat, src: seq<Word>, len: nat)
      requires Ok() && 3 <= dst && dst + len <= 11 && len <= |src|
      modifies this, regions
      ensures Ok() && Contents() == WriteWords(old(Contents()), dst, src[..len])
    {
      for i := 0 to len
        invariant Ok() && Contents() == WriteWords(old(Contents()), dst, src[..i])
      {
        assert src[..i + 1][..i] == src[..i];
        Store(dst + i, src[i]);
      }
    }

    /** Loading a table is configuring its regions one at a time, for every table and count. */
    method Load(table: seq<Entry>, cnt: nat)
      requires Ok() && cnt <= |table|
      modifies this, regions
      ensures Ok() && Contents() == SetRegions(old(Contents()), table[..cnt])
    {
      var row, left: nat := 0, cnt;
      while left > RALIASES
        invariant Ok() && row + left == cnt
        invariant Contents() == SetRegions(old(Contents()), table[..row])
      {
        CopyRows(table, row, RALIASES, old(Contents()));
        row := row + RALIASES;
        left := left - RALIASES;
      }
      CopyRows(table, row, left, old(Contents()));
    }

    /** One call of OrderedMemcpy from Load: `n` rows of the table, from `row` on, to RBAR and its aliases. */
    method CopyRows(table: seq<Entry>, row: nat, n: nat, ghost start: State)
      requires Ok() && row + n <= |table| && n <= RALIASES
      requires Valid(start) && Contents() == SetRegions(start, table[..row])
      modifies this, regions
      ensures Ok() && Contents() == SetRegions(start, table[..row + n])
    {
      NextRows(start, table, row, n);
      AliasesSetRegions(Contents(), table[row..][..n]);
      assert Flat(table[row..])[..2 * n] == Flat(table[row..][..n]);
      OrderedMemcpy(RBAR_OFFSET, Flat(table[row..]), 2 * n);
    }
  }
}
