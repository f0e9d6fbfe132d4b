/**
 * Three places where ifd.c does not do what it evidently means to do. Each
 * is modelled as written, with an input that exposes it; the Descriptor and
 * Layout modules model the intended behaviour.
 */
module Findings {
  import opened Descriptor
  import opened Regions
  import opened Layout

  // ---------------------------------------------------------------------
  // ifd.c:55, the scan bound `size - sizeof(fdbar_t)`

  /** size_t on an LP64 build. */
  const SizeTModulus: nat := 0x1_0000_0000_0000_0000

  /**
   * The scan bound as line 55 computes it: `size` is converted to size_t
   * and the subtraction wraps below zero.
   */
  function ScanBoundAsWritten(size: nat): nat
  {
    (size - FdbarSize) % SizeTModulus
  }

  /** The offsets line 55's loop visits. */
  predicate ScannedAsWritten(size: nat, i: nat)
  {
    i % 4 == 0 && i <= ScanBoundAsWritten(size)
  }

  /** For an image that holds a whole header, line 55 visits exactly the intended offsets. */
  lemma ScanBoundAgrees(size: nat, i: nat)
    requires FdbarSize <= size < SizeTModulus
    ensures ScannedAsWritten(size, i) <==> Scanned(size, i)
  {
  }

  /**
   * For an image shorter than the header, line 55 visits an aligned offset
   * whose 4-byte read already lies past the end of the image; it is the
   * first such offset, as every smaller aligned offset reads within it.
   */
  lemma ShortImageOverrunAsWritten(size: nat)
    requires size < FdbarSize
    ensures var i := size - size % 4;
      && ScannedAsWritten(size, i) && size < i + 4 && !Scanned(size, i)
      && forall j: nat :: j % 4 == 0 && j < i ==> j + 4 <= size
  {
    assert ScanBoundAsWritten(size) == size - FdbarSize + SizeTModulus;
  }

  /** An image of `size` zero bytes. */
  function Zeros(size: nat): (image: seq<bv8>)
    ensures |image| == size
  {
    seq(size, _ => 0)
  }

  /**
   * In an all-zero short image no offset that line 55 visits before the
   * overrun holds the signature, so the loop does reach the overrunning read.
   */
  lemma ZeroShortImageReachesOverrun(size: nat)
    requires size < FdbarSize
    ensures forall j: nat :: j % 4 == 0 && j + 4 <= size ==>
      ScannedAsWritten(size, j) && !SignatureAt(Zeros(size), j)
  {
    assert ScanBoundAsWritten(size) == size - FdbarSize + SizeTModulus;
    forall j: nat | j % 4 == 0 && j + 4 <= size
      ensures !SignatureAt(Zeros(size), j)
    {
      assert Le32(Zeros(size), j) == 0;
    }
  }

  /** The intended scan never reads past the image, so a short image has no descriptor. */
  lemma ShortImageNotFound(image: seq<bv8>)
    requires |image| < FdbarSize
    ensures LocateDescriptor(image) == None
  {
    LocateDescriptorNone(image);
  }

  // ---------------------------------------------------------------------
  // ifd.c:128, the new image's descriptor check re-tests the old one

  /** The checks at lines 123 and 128 as written: both test the old image's descriptor. */
  predicate DescriptorGuardsPassAsWritten(fdOld: Option<nat>, fdNew: Option<nat>)
  {
    var passes123 := fdOld.Some?;
    var passes128 := fdOld.Some?;
    passes123 && passes128
  }

  /** An image of one header's length whose only content is the signature at offset 0. */
  function SignatureOnly(): seq<bv8>
  {
    [0x5A, 0xA5, 0xF0, 0x0F] + seq(FdbarSize - 4, _ => 0)
  }

  /** An all-zero image of one header's length. */
  function Blank(): seq<bv8>
  {
    seq(FdbarSize, _ => 0)
  }

  lemma SignatureOnlyLocated()
    ensures LocateDescriptor(SignatureOnly()) == Some(0)
  {
    assert SignatureAt(SignatureOnly(), 0);
  }

  lemma BlankNotLocated()
    ensures LocateDescriptor(Blank()) == None
  {
    assert !SignatureAt(Blank(), 0);
  }

  /**
   * With the descriptor in the old image only, both checks pass as written
   * and line 134 goes on to read flmap0 through the null fdb_new; the
   * intended checks report the new image's descriptor as missing.
   */
  lemma NewDescriptorMissedAsWritten(maxEntries: int)
    ensures LocateDescriptor(SignatureOnly()).Some? && LocateDescriptor(Blank()).None?
    ensures DescriptorGuardsPassAsWritten(LocateDescriptor(SignatureOnly()), LocateDescriptor(Blank()))
    ensures RomLayout(SignatureOnly(), Blank(), maxEntries) == Outcome(DescriptorNotFound(New), [])
  {
    SignatureOnlyLocated();
    BlankNotLocated();
  }

  // ---------------------------------------------------------------------
  // ifd.c:133-134, the region table is read without a bounds check

  /** A header-sized image with the signature and flmap0 = 0x00ff0000. */
  function FarRegionTable(): seq<bv8>
  {
    [0x5A, 0xA5, 0xF0, 0x0F, 0x00, 0x00, 0xFF, 0x00] + seq(FdbarSize - 8, _ => 0)
  }

  /**
   * As written, the region table of this image starts at 0xff0, so the
   * 20-byte read runs past the 0xef0-byte image; the intended check
   * reports it instead of reading.
   */
  lemma RegionTableOverrunAsWritten(maxEntries: int)
    ensures LocateDescriptor(FarRegionTable()) == Some(0)
    ensures FrbaOffset(Flmap0(FarRegionTable(), 0)) == 0xff0
    ensures FrbaOffset(Flmap0(FarRegionTable(), 0)) + FrbaSize > |FarRegionTable()|
    ensures RomLayout(FarRegionTable(), FarRegionTable(), maxEntries) == Outcome(RegionTableOutOfBounds(Old), [])
  {
    var image := FarRegionTable();
    assert SignatureAt(image, 0);
    assert Flmap0(image, 0) == 0x00ff_0000;
    FrbaOffsetValue(0x00ff_0000);
  }
}
