/**
 * The Descriptor Locator of ifd.c: the flash descriptor header (fdbar_t),
 * little-endian word reads from an image, and find_fd, the stride-4 scan
 * for the descriptor signature.
 */
module Descriptor {

  datatype Option<T> = None | Some(value: T)

  /** The flvalsig value that marks a flash descriptor. */
  const FdSignature: bv32 := 0x0FF0_A55A

  /**
   * sizeof(fdbar_t): flvalsig, flmap0, flmap1, flmap2 (16 bytes), the
   * reserved block of 0xefc - 0x20 bytes, and flumap1 (4 bytes).
   */
  const FdbarSize: nat := 0x10 + (0xefc - 0x20) + 4

  /** The unsigned 32-bit word stored little-endian at `off`. */
  function Le32(image: seq<bv8>, off: nat): bv32
    requires off + 4 <= |image|
  {
    image[off] as bv32
    | (image[off + 1] as bv32 << 8)
    | (image[off + 2] as bv32 << 16)
    | (image[off + 3] as bv32 << 24)
  }

  predicate SignatureAt(image: seq<bv8>, off: nat)
    requires off + 4 <= |image|
  {
    Le32(image, off) == FdSignature
  }

  /**
   * The offsets the scan visits in an image of `size` bytes: multiples of 4
   * at which a whole descriptor header still fits.
   */
  predicate Scanned(size: nat, off: nat)
  {
    off % 4 == 0 && off + FdbarSize <= size
  }

  /** `k` is a signature offset and no earlier scanned offset is one. */
  ghost predicate IsFirstSignature(image: seq<bv8>, k: nat)
  {
    && Scanned(|image|, k)
    && SignatureAt(image, k)
    && forall j: nat :: Scanned(|image|, j) && j < k ==> !SignatureAt(image, j)
  }

  ghost predicate NoSignature(image: seq<bv8>)
  {
    forall j: nat :: Scanned(|image|, j) ==> !SignatureAt(image, j)
  }

  /** The scan result from offset `i` on (the specification of find_fd). */
  function FirstSignatureFrom(image: seq<bv8>, i: nat): (r: Option<nat>)
    ensures r.Some? ==> i <= r.value && r.value + FdbarSize <= |image|
    decreases |image| - i
  {
    if i + FdbarSize > |image| then None
    else if SignatureAt(image, i) then Some(i)
    else FirstSignatureFrom(image, i + 4)
  }

  /** Offset of the descriptor header in `image`, if there is one. */
  function LocateDescriptor(image: seq<bv8>): (r: Option<nat>)
    ensures r.Some? ==> r.value + FdbarSize <= |image|
  {
    FirstSignatureFrom(image, 0)
  }

  /** The flmap0 field, at byte 4 of the descriptor header. */
  function Flmap0(image: seq<bv8>, fd: nat): bv32
    requires fd + FdbarSize <= |image|
  {
    Le32(image, fd + 4)
  }

  lemma {:induction false} FirstSignatureFromCorrect(image: seq<bv8>, i: nat)
    requires i % 4 == 0
    ensures FirstSignatureFrom(image, i).Some? ==>
      var k := FirstSignatureFrom(image, i).value;
      && Scanned(|image|, k) && SignatureAt(image, k)
      && forall j: nat :: i <= j < k && Scanned(|image|, j) ==> !SignatureAt(image, j)
    ensures FirstSignatureFrom(image, i).None? ==>
      forall j: nat :: i <= j && Scanned(|image|, j) ==> !SignatureAt(image, j)
    decreases |image| - i
  {
    if i + FdbarSize <= |image| && !SignatureAt(image, i) {
      FirstSignatureFromCorrect(image, i + 4);
      assert forall j: nat :: i <= j < i + 4 && Scanned(|image|, j) ==> j == i;
    }
  }

  /** find_fd answers `k` exactly when `k` is the first signature offset scanned. */
  lemma LocateDescriptorIsFirst(image: seq<bv8>, k: nat)
    ensures LocateDescriptor(image) == Some(k) <==> IsFirstSignature(image, k)
  {
    FirstSignatureFromCorrect(image, 0);
    if IsFirstSignature(image, k) {
      assert LocateDescriptor(image).Some?;
      var k' := LocateDescriptor(image).value;
      assert !(k < k') && !(k' < k);
    }
  }

  /** find_fd answers "not found" exactly when no scanned offset holds the signature. */
  lemma LocateDescriptorNone(image: seq<bv8>)
    ensures LocateDescriptor(image).None? <==> NoSignature(image)
  {
    FirstSignatureFromCorrect(image, 0);
  }

  /**
   * find_fd: scan offsets 0, 4, 8, ... while a header still fits, and stop at
   * the first one whose little-endian word is the signature.
   */
  method FindFd(image: seq<bv8>) returns (fd: Option<nat>)
    ensures fd == LocateDescriptor(image)
  {
    var i := 0;
    var found := false;
    while i + FdbarSize <= |image|
      invariant i % 4 == 0
      invariant !found
      invariant FirstSignatureFrom(image, i) == LocateDescriptor(image)
      decreases |image| - i
    {
      if Le32(image, i) == FdSignature {
        found := true;
        break;
      }
      i := i + 4;
    }
    if !found {
      return None;
    }
    return Some(i);
  }
}
