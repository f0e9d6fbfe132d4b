/**
 * The Region Table Decoder of ifd.c: the region table (frba_t), its
 * location from flmap0, and get_region, which unpacks one region word
 * into a base, a limit and a size.
 */
module Regions {
  import opened Descriptor

  /** The five region words flreg0 .. flreg4. */
  datatype Frba = Frba(flreg0: bv32, flreg1: bv32, flreg2: bv32, flreg3: bv32, flreg4: bv32)

  /** region_t: C ints; every value get_region produces fits in 25 bits. */
  datatype Region = Region(base: int, limit: int, size: int)

  /** sizeof(frba_t): five 32-bit words. */
  const FrbaSize: nat := 20

  /** The number of regions the descriptor defines. */
  const RegionCount: nat := 5

  /** Bits 23:16 of flmap0: the region table's offset in 16-byte units. */
  function FrbaField(flmap0: bv32): (f: nat)
    ensures f < 256
  {
    ((flmap0 >> 16) & 0xff) as int
  }

  /** ((flmap0 >> 16) & 0xff) << 4: the region table's byte offset from the image start. */
  function FrbaOffset(flmap0: bv32): nat
  {
    (((flmap0 >> 16) & 0xff) << 4) as int
  }

  lemma FrbaOffsetValue(flmap0: bv32)
    ensures FrbaOffset(flmap0) == 16 * FrbaField(flmap0)
    ensures FrbaOffset(flmap0) % 16 == 0 && FrbaOffset(flmap0) <= 0xff0
  {
    var x := (flmap0 >> 16) & 0xff;
    assert x < 256;
    assert (x << 4) as int == x as int * 16;
  }

  /** The region table whose first byte is at `off`. */
  function ReadFrba(image: seq<bv8>, off: nat): Frba
    requires off + FrbaSize <= |image|
  {
    Frba(Le32(image, off), Le32(image, off + 4), Le32(image, off + 8),
         Le32(image, off + 12), Le32(image, off + 16))
  }

  /** The region word get_region selects for index 0 .. 4. */
  function Flreg(frba: Frba, i: nat): bv32
    requires i < RegionCount
  {
    match i
    case 0 => frba.flreg0
    case 1 => frba.flreg1
    case 2 => frba.flreg2
    case 3 => frba.flreg3
    case _ => frba.flreg4
  }

  /** Bits 11:0 of a region word: the base in 4 KiB units. */
  function BaseField(w: bv32): (f: nat)
    ensures f < 4096
  {
    (w & 0xfff) as int
  }

  /** Bits 27:16 of a region word: the limit in 4 KiB units. */
  function LimitField(w: bv32): (f: nat)
    ensures f < 4096
  {
    ((w >> 16) & 0xfff) as int
  }

  /** (w & 0x00000fff) << 12 */
  function RegionBase(w: bv32): int
  {
    ((w & 0x0000_0fff) << 12) as int
  }

  /** ((w & 0x0fff0000) >> 4) | 0xfff */
  function RegionLimit(w: bv32): int
  {
    (((w & 0x0fff_0000) >> 4) | 0xfff) as int
  }

  /**
   * get_region: indices 0 .. 4 decode the matching word; any other index
   * leaves base and limit at 0. The size is computed after the switch, so
   * it is limit - base + 1 in every case.
   */
  function GetRegion(frba: Frba, regionType: int): Region
  {
    var base := if 0 <= regionType < RegionCount then RegionBase(Flreg(frba, regionType)) else 0;
    var limit := if 0 <= regionType < RegionCount then RegionLimit(Flreg(frba, regionType)) else 0;
    Region(base, limit, limit - base + 1)
  }

  /** Five decoded regions, indexed like the region table. */
  type RegionTable = rs: seq<Region> | |rs| == RegionCount
    witness [Region(0, 0, 1), Region(0, 0, 1), Region(0, 0, 1), Region(0, 0, 1), Region(0, 0, 1)]

  /** get_region for each of the indices 0 .. 4. */
  function DecodeTable(frba: Frba): (rs: RegionTable)
    ensures forall i: nat :: i < RegionCount ==> rs[i] == GetRegion(frba, i)
  {
    [GetRegion(frba, 0), GetRegion(frba, 1), GetRegion(frba, 2), GetRegion(frba, 3), GetRegion(frba, 4)]
  }

  predicate IsEmpty(r: Region)
  {
    r.size <= 0
  }

  lemma ShiftLeft12(x: bv32)
    requires x < 4096
    ensures (x << 12) as int == x as int * 4096
  {
  }

  lemma BaseValue(w: bv32)
    ensures RegionBase(w) == BaseField(w) * 4096
  {
    ShiftLeft12(w & 0xfff);
  }

  lemma ShiftLeft12Fill(x: bv32)
    requires x < 4096
    ensures ((x << 12) | 0xfff) as int == x as int * 4096 + 4095
  {
    assert (x << 12) | 0xfff == (x << 12) + 0xfff;
    ShiftLeft12(x);
    assert ((x << 12) + 0xfff) as int == (x << 12) as int + 0xfff;
  }

  lemma LimitBits(w: bv32)
    ensures ((w & 0x0fff_0000) >> 4) | 0xfff == (((w >> 16) & 0xfff) << 12) | 0xfff
  {
  }

  lemma LimitValue(w: bv32)
    ensures RegionLimit(w) == LimitField(w) * 4096 + 4095
  {
    LimitBits(w);
    ShiftLeft12Fill((w >> 16) & 0xfff);
  }

  /** A valid index decodes the 4 KiB-unit fields of its word. */
  lemma RegionFields(frba: Frba, i: nat)
    requires i < RegionCount
    ensures var w := Flreg(frba, i);
      && GetRegion(frba, i).base == BaseField(w) * 4096
      && GetRegion(frba, i).limit == LimitField(w) * 4096 + 4095
      && GetRegion(frba, i).size == (LimitField(w) - BaseField(w) + 1) * 4096
  {
    BaseValue(Flreg(frba, i));
    LimitValue(Flreg(frba, i));
  }

  /**
   * Decoded regions are 4 KiB aligned and below 16 MiB; sizes are multiples
   * of 4 KiB (never 1), and a region is empty exactly when its limit field
   * is below its base field.
   */
  lemma RegionShape(frba: Frba, i: nat)
    requires i < RegionCount
    ensures var r := GetRegion(frba, i);
      && r.base % 4096 == 0 && 0 <= r.base < 0x100_0000
      && r.limit % 4096 == 0xfff && 0 <= r.limit < 0x100_0000
      && r.size % 4096 == 0 && r.size != 1
      && (IsEmpty(r) <==> LimitField(Flreg(frba, i)) < BaseField(Flreg(frba, i)))
  {
    var w := Flreg(frba, i);
    RegionFields(frba, i);
    DecodedShape(GetRegion(frba, i), BaseField(w), LimitField(w));
  }

  /** The arithmetic behind RegionShape, for a region built from two 12-bit fields. */
  lemma DecodedShape(r: Region, baseField: int, limitField: int)
    requires 0 <= baseField < 4096 && 0 <= limitField < 4096
    requires r.base == baseField * 4096 && r.limit == limitField * 4096 + 4095
    requires r.size == (limitField - baseField + 1) * 4096
    ensures r.base % 4096 == 0 && 0 <= r.base < 0x100_0000
    ensures r.limit % 4096 == 0xfff && 0 <= r.limit < 0x100_0000
    ensures r.size % 4096 == 0 && r.size != 1
    ensures IsEmpty(r) <==> limitField < baseField
  {
  }

  /** An index outside 0 .. 4 gives base 0 and limit 0 but size 1, not 0. */
  lemma RegionOutOfRange(frba: Frba, regionType: int)
    requires regionType < 0 || RegionCount <= regionType
    ensures GetRegion(frba, regionType) == Region(0, 0, 1)
    ensures !IsEmpty(GetRegion(frba, regionType))
  {
  }
}
