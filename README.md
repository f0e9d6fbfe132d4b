# Intel Flash Descriptor layout reader (flashrom `ifd.c`), modelled in Dafny

flashrom's `ifd.c` reads the Intel Flash Descriptor (IFD) in two firmware
images of one flash chip, the image now on the chip ("old") and the one about
to be written ("new"). It turns the descriptor's region table into layout
entries for a partial flash write. The model has three parts:

- **Descriptor** (`descriptor.dfy`) models `find_fd`. It scans offsets 0, 4, 8,
  ... for the little-endian signature `0x0FF0A55A`, as long as a whole
  `fdbar_t` header (`0xef0` bytes) still fits. The method `FindFd` keeps the
  source's loop, `found` flag and `break`. It is proved against the
  recursive function `FirstSignatureFrom`, and lemmas show that this function
  returns the first signature offset or "not found".
- **Regions** (`regions.dfy`) models the region table `frba_t` and
  `get_region`. Region words are `bv32`, so the source's masks and shifts
  appear as written. Lemmas give the decoded values in 4 KiB units.
- **Layout** (`layout.dfy`) models `ifd_read_romlayout`:
  - `ReadRomLayout` writes into a caller-owned `array<Entry>` and returns the
    C return code, a `Status` and the entry count.
  - Its loop is specified by the function `Walk`.
  - `Reference` describes the same outcome without a loop. `WalkIsReference`
    proves the two always agree.
  - The success, mismatch, capacity and bounds promises are proved about
    `Reference` and `RomLayout`.
- **Findings** (`findings.dfy`) models three defects as written. For each it
  gives an input that exposes the defect.

Images are `seq<bv8>`. The old and new image have the same length, which
stands for `flash_size`.

At these points the model follows the code rather than the layout one might
expect:

- The region table is located at **image start** + `((flmap0 >> 16) & 0xff) << 4`
  (`ifd.c:133-134`), not at the descriptor's start.
- `get_region` with an index outside 0..4 gives base 0, limit 0 and **size 1**
  (`ifd.c:73`, `ifd.c:100`), not size 0.
- The source returns `1` for every failure. The model also returns a `Status`
  that says which check failed; `ReturnCode` maps it back to 0 or 1.
- A region with `base == limit` (size 1) cannot be encoded. Every limit ends
  in `0xfff` and every base in `0x000`, so sizes are multiples of 4096
  (`Regions.RegionShape`).

## Model

| member | source | states |
|---|---|---|
| `Descriptor.FindFd` | ifd.c:50-68 | The stride-4 scan with its `found` flag and `break` returns exactly `LocateDescriptor(image)`. |
| `Descriptor.FirstSignatureFromCorrect` | ifd.c:55-63 | A scan from aligned offset `i` returns a scanned offset holding the signature, with no signature at any scanned offset in between. "Not found" means no scanned offset at or after `i` holds one. |
| `Descriptor.LocateDescriptorIsFirst` | ifd.c:50-68 | `find_fd` answers `k` exactly when `k` is a multiple of 4, `k + 0xef0 <= size`, the LE32 word at `k` is `0x0FF0A55A`, and no smaller such offset holds the signature. |
| `Descriptor.LocateDescriptorNone` | ifd.c:55-63 | `find_fd` answers "not found" exactly when no scanned offset holds the signature. |
| `Regions.FrbaOffsetValue` | ifd.c:133-134 | The region-table offset is 16 times bits 23:16 of `flmap0`. It is a multiple of 16 and at most `0xff0`. |
| `Regions.RegionFields` | ifd.c:70-100 | For indices 0..4, `base` is bits 11:0 of the word times 4096, `limit` is bits 27:16 times 4096 plus `0xfff`, and `size` is `(limit field - base field + 1) * 4096`. |
| `Regions.RegionShape` | ifd.c:77-100 | A decoded base is 4 KiB aligned, a limit ends in `0xfff`, and both are below `2^24`. The size is a multiple of 4096 and never 1. A region is empty exactly when its limit field is below its base field. |
| `Regions.DecodedShape` | ifd.c:77-100 | For a region built from two 12-bit fields in 4 KiB units, the base is aligned and the limit ends in `0xfff`. Both are below `2^24`, the size is a multiple of 4096 and never 1, and the region is empty exactly when the limit field is below the base field. |
| `Regions.RegionOutOfRange` | ifd.c:72-100 | An index outside 0..4 gives base 0, limit 0 and size 1, so such a region is not empty. |
| `Layout.FirstMismatch` | ifd.c:136-143 | Returns the least region index from `i` on at which the old and new bases or limits differ, or 5 if none does. |
| `Layout.NonEmptyBelowEntries` | ifd.c:152-155 | The reference entry list holds exactly one entry (base, limit, label) per listed non-empty region, in the same order. |
| `Layout.NonEmptyIndicesNonEmpty` | ifd.c:144-158 | Every region index the reference lists as written has a size above 0. |
| `Layout.NonEmptyIndicesIncreasing` | ifd.c:136-158 | The listed region indices are strictly increasing, so each region is written at most once and in index order. |
| `Layout.NonEmptyIndicesComplete` | ifd.c:136-158 | Every region below `hi` whose size is above 0 is listed, so no non-empty region is skipped. |
| `Layout.RegionEntrySpan` | ifd.c:152-155 | An entry for region `i` has `end - start + 1` equal to the decoded size, which is `(limit field - base field + 1) * 4096` of the region word. It carries the label `regions[i]`. |
| `Layout.WalkIsReference` | ifd.c:136-160 | The five-region loop has the same outcome as the loop-free description: stop at the first disagreeing region, and write every earlier non-empty region until the capacity runs out. |
| `Layout.ReferenceSuccess` | ifd.c:136-160 | The loop succeeds exactly when all five regions agree and the non-empty ones fit the capacity. It then emits exactly the non-empty regions in index order. |
| `Layout.ReferenceMismatch` | ifd.c:139-145 | Region `k` is reported as mismatching exactly when it is the first differing region and the non-empty regions before it fit. Being empty does not exempt a region, because the mismatch test comes first. |
| `Layout.ReferenceEmitted` | ifd.c:147-158 | At most `max(capacity, 0)` entries are written, and they are always a prefix of the non-empty regions. On a capacity failure exactly that many entries were written. |
| `Layout.IdenticalTablesSucceed` | ifd.c:136-160 | Two identical region tables whose non-empty regions fit are accepted. The call emits one entry per non-empty region, each with `end - start + 1 > 0`. |
| `Layout.EmitRegions` | ifd.c:135-160 | The loop over regions 0..4 ends with the status, count and entries of `Walk`, and returns 0 exactly on success and 1 otherwise. Its only failures are a region mismatch and a full array. Slots from `count` on are unchanged, and `count <= max(capacity, 0)`. |
| `Layout.RomLayoutTables` | ifd.c:133-160 | Once both descriptors and both region tables are read, the call's outcome is `Reference` of the two tables. |
| `Layout.RomLayoutDescriptors` | ifd.c:122-131 | A missing old descriptor is reported first, and a missing new descriptor is reported independently. Both errors come with zero entries. |
| `Layout.RomLayoutTableChecks` | ifd.c:133-134 | A region table is refused exactly when both descriptors are found and that table's 20 bytes would run past its image. The old table is checked first, and the error comes with zero entries. |
| `Layout.RomLayoutBounded` | ifd.c:119-158 | No call emits more entries than the capacity passed in through `*n_entries`. |
| `Layout.ReadRomLayout` | ifd.c:105-161 | The status and count match `RomLayout`. The C result is 0 exactly on success and 1 on every failure. A missing descriptor or an out-of-bounds table comes with count 0. Slots `[0, count)` hold the emitted entries, `count <= max(capacity, 0)`, and every slot from `count` on is unchanged. |
| `Findings.ScanBoundAgrees` | ifd.c:55 | For an image that holds a whole header, the wrapped bound at line 55 visits exactly the intended offsets. |
| `Findings.ShortImageOverrunAsWritten` | ifd.c:55-56 | For an image shorter than `0xef0` bytes, line 55 as written visits the aligned offset `size - size % 4`, whose 4-byte read lies past the image end. Every smaller aligned offset reads within the image. |
| `Findings.ZeroShortImageReachesOverrun` | ifd.c:55-63 | In an all-zero image shorter than `0xef0` bytes, every aligned offset the loop visits before the overrun lacks the signature, so the loop reaches the overrunning read. |
| `Findings.ShortImageNotFound` | ifd.c:55-63 | With the intended bound, an image shorter than the header has no descriptor. |
| `Findings.NewDescriptorMissedAsWritten` | ifd.c:122-134 | With a descriptor in the old image only, both checks at lines 123 and 128 pass as written. The intended checks report the new descriptor as missing. |
| `Findings.RegionTableOverrunAsWritten` | ifd.c:133-134 | For a `0xef0`-byte image with `flmap0 = 0x00ff0000`, the table starts at `0xff0`, so the unchecked 20-byte read overruns the image. The intended check refuses the old table. |

## Left out

- Logging through `msg_ginfo`/`msg_gerr` (ifd.c:65, 124, 129, 140, 148, 156) is left out. It is output only and does not affect results.
- Name truncation by `snprintf` into `romlayout_t.name` (ifd.c:154-155) is left out, because `flash.h` is not part of this model. An entry's name is the label itself.
- The raw pointer casts and native-endian, possibly unaligned struct overlays (ifd.c:56, 67, 133-134) are replaced by bounds-checked little-endian reads. Memory aliasing is not modelled.
- `flmap1`, `flmap2`, `flumap1` and the reserved block of `fdbar_t` are used only to fix `sizeof(fdbar_t) = 0xef0`.
- The undefined behaviour after the defects at ifd.c:55, 128 and 133-134 (out-of-bounds reads, a null dereference) is not modelled. The model stops with "not found" or an error status instead; see Findings.
- The conversion of `flash_size` (unsigned) to `find_fd`'s `int size` is left out. Image lengths are unbounded naturals, so a size above `2^31 - 1` does not turn negative.
- `ReadRomLayout` takes the two images with length exactly `flash_size`. Buffers longer than `flash_size` are not modelled.
- The higher-level flashing engine that consumes the entries is not part of this model.
- `Findings.ScanBoundAsWritten` assumes a 64-bit `size_t`.

## Findings

| source | as written | input that shows it | evidently intended | confidence | as-written member | corrected member |
|---|---|---|---|---|---|---|
| ifd.c:55 | `i <= (size - sizeof(fdbar_t))` computes an unsigned difference, which wraps when `size < 0xef0` | an all-zero 16-byte image: the loop reads at `0x10`, past the end | scan no offset and report "not found" | high; not executed | `Findings.ShortImageOverrunAsWritten` | `Descriptor.FindFd` |
| ifd.c:128 | `if (!fdb_old)` tests the old descriptor a second time | old image `0xef0` bytes with the signature at 0, new image `0xef0` zero bytes: both checks pass and line 134 reads through a null `fdb_new` | `if (!fdb_new)` | high; not executed | `Findings.NewDescriptorMissedAsWritten` | `Layout.RomLayoutDescriptors` |
| ifd.c:133-134 | the 20-byte region table at image + `((flmap0 >> 16) & 0xff) << 4` is read without a bounds check | a `0xef0`-byte image with the signature at 0 and `flmap0 = 0x00ff0000`: the table starts at `0xff0`, past the end | refuse a table that does not fit in the image | medium; not executed | `Findings.RegionTableOverrunAsWritten` | `Layout.RomLayoutTableChecks` |
