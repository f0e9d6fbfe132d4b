/**
 * The Layout Reconciler of ifd.c: ifd_read_romlayout locates the descriptor
 * in the old and the new image, reads both region tables, and appends one
 * layout entry per non-empty region to a caller-owned array, refusing
 * images whose region tables disagree.
 */
module Layout {
  import opened Descriptor
  import opened Regions

  /** romlayout_t: a range of the chip and the region's label. */
  datatype Entry = Entry(start: int, end: int, name: string)

  datatype Image = Old | New

  /** Why the reconciliation stopped. The source returns 0 or 1; `ReturnCode` maps back. */
  datatype Status =
    | Success
    | DescriptorNotFound(which: Image)
    | RegionTableOutOfBounds(which: Image)
    | RegionMismatch(index: nat)
    | CapacityExceeded

  /** The status and the entries written into the caller's array before returning. */
  datatype Outcome = Outcome(status: Status, emitted: seq<Entry>)

  const RegionNames: seq<string> := ["Flash_Descriptor", "BIOS", "Intel_ME", "GbE", "Platform_Data"]

  function ReturnCode(status: Status): (code: int)
    ensures code == 0 || code == 1
    ensures code == 0 <==> status == Success
  {
    if status.Success? then 0 else 1
  }

  /** The number of entries the caller's array takes: a negative count admits none. */
  function Capacity(maxEntries: int): nat
  {
    if maxEntries < 0 then 0 else maxEntries
  }

  function RegionEntry(rs: RegionTable, i: nat): Entry
    requires i < RegionCount
  {
    Entry(rs[i].base, rs[i].limit, RegionNames[i])
  }

  /** The two tables disagree on region `i`'s base or limit. */
  predicate Differ(rOld: RegionTable, rNew: RegionTable, i: nat)
    requires i < RegionCount
  {
    rOld[i].base != rNew[i].base
    || rOld[i].limit != rNew[i].limit
  }

  ghost predicate TablesAgree(rOld: RegionTable, rNew: RegionTable)
  {
    forall i: nat :: i < RegionCount ==> !Differ(rOld, rNew, i)
  }

  /**
   * The loop of ifd_read_romlayout from region `i` on, with `acc` the
   * entries written so far (the specification of ReadRomLayout's loop).
   */
  function Walk(rOld: RegionTable, rNew: RegionTable, i: nat, maxEntries: int, acc: seq<Entry>): Outcome
    requires i <= RegionCount
    decreases RegionCount - i
  {
    if i == RegionCount then Outcome(Success, acc)
    else if Differ(rOld, rNew, i) then Outcome(RegionMismatch(i), acc)
    else if IsEmpty(rOld[i]) then Walk(rOld, rNew, i + 1, maxEntries, acc)
    else if |acc| >= maxEntries then Outcome(CapacityExceeded, acc)
    else Walk(rOld, rNew, i + 1, maxEntries, acc + [RegionEntry(rOld, i)])
  }

  /** The region table of the descriptor at `fd`, unless it runs past the image end. */
  function DescriptorTable(image: seq<bv8>, fd: nat): Option<RegionTable>
    requires fd + FdbarSize <= |image|
  {
    var off := FrbaOffset(Flmap0(image, fd));
    if off + FrbaSize <= |image| then Some(DecodeTable(ReadFrba(image, off))) else None
  }

  /** What ifd_read_romlayout does, with both descriptor checks and a bounds check on the region tables. */
  function RomLayout(oldImage: seq<bv8>, newImage: seq<bv8>, maxEntries: int): Outcome
  {
    match LocateDescriptor(oldImage)
    case None => Outcome(DescriptorNotFound(Old), [])
    case Some(fdOld) =>
      match LocateDescriptor(newImage)
      case None => Outcome(DescriptorNotFound(New), [])
      case Some(fdNew) =>
        match DescriptorTable(oldImage, fdOld)
        case None => Outcome(RegionTableOutOfBounds(Old), [])
        case Some(rOld) =>
          match DescriptorTable(newImage, fdNew)
          case None => Outcome(RegionTableOutOfBounds(New), [])
          case Some(rNew) => Walk(rOld, rNew, 0, maxEntries, [])
  }

  // ---------------------------------------------------------------------
  // An independent description of the loop's outcome

  /** The first region index, from `i` on, at which the tables disagree (5 if none). */
  function FirstMismatch(rOld: RegionTable, rNew: RegionTable, i: nat): (k: nat)
    requires i <= RegionCount
    ensures i <= k <= RegionCount
    ensures k < RegionCount ==> Differ(rOld, rNew, k)
    ensures forall j: nat :: i <= j < k ==> !Differ(rOld, rNew, j)
    decreases RegionCount - i
  {
    if i == RegionCount then RegionCount
    else if Differ(rOld, rNew, i) then i
    else FirstMismatch(rOld, rNew, i + 1)
  }

  /** The entries of the non-empty regions with index below `hi`, in index order. */
  function NonEmptyBelow(rs: RegionTable, hi: nat): seq<Entry>
    requires hi <= RegionCount
  {
    if hi == 0 then []
    else NonEmptyBelow(rs, hi - 1)
         + (if IsEmpty(rs[hi - 1]) then [] else [RegionEntry(rs, hi - 1)])
  }

  /**
   * The outcome described without the loop: the scan stops at the first
   * disagreeing region; before it, every non-empty region is written until
   * the capacity is used up.
   */
  function Reference(rOld: RegionTable, rNew: RegionTable, maxEntries: int): Outcome
  {
    var k := FirstMismatch(rOld, rNew, 0);
    var e := NonEmptyBelow(rOld, k);
    var cap := Capacity(maxEntries);
    if |e| > cap then Outcome(CapacityExceeded, e[..cap])
    else if k < RegionCount then Outcome(RegionMismatch(k), e)
    else Outcome(Success, e)
  }

  /** The indices of the non-empty regions below `hi`, in increasing order. */
  function NonEmptyIndices(rs: RegionTable, hi: nat): (idx: seq<nat>)
    requires hi <= RegionCount
    ensures forall p :: 0 <= p < |idx| ==> idx[p] < hi
  {
    if hi == 0 then []
    else NonEmptyIndices(rs, hi - 1) + (if IsEmpty(rs[hi - 1]) then [] else [hi - 1])
  }

  lemma {:induction false} NonEmptyBelowPrefix(rs: RegionTable, i: nat, k: nat)
    requires i <= k <= RegionCount
    ensures NonEmptyBelow(rs, i) <= NonEmptyBelow(rs, k)
    decreases k - i
  {
    if i < k {
      NonEmptyBelowPrefix(rs, i, k - 1);
    }
  }

  /** NonEmptyBelow holds one entry (base, limit, label) per index of NonEmptyIndices, in that order. */
  lemma {:induction false} NonEmptyBelowEntries(rs: RegionTable, hi: nat)
    requires hi <= RegionCount
    ensures var e, idx := NonEmptyBelow(rs, hi), NonEmptyIndices(rs, hi);
      && |e| == |idx|
      && forall p :: 0 <= p < |idx| ==> e[p] == RegionEntry(rs, idx[p])
  {
    if hi > 0 {
      NonEmptyBelowEntries(rs, hi - 1);
    }
  }

  /** Every index NonEmptyIndices lists is that of a non-empty region. */
  lemma {:induction false} NonEmptyIndicesNonEmpty(rs: RegionTable, hi: nat)
    requires hi <= RegionCount
    ensures forall p :: 0 <= p < |NonEmptyIndices(rs, hi)| ==> !IsEmpty(rs[NonEmptyIndices(rs, hi)[p]])
  {
    if hi > 0 {
      NonEmptyIndicesNonEmpty(rs, hi - 1);
    }
  }

  /** NonEmptyIndices is strictly increasing, so each region appears once, in index order. */
  lemma {:induction false} NonEmptyIndicesIncreasing(rs: RegionTable, hi: nat)
    requires hi <= RegionCount
    ensures forall p, q :: 0 <= p < q < |NonEmptyIndices(rs, hi)| ==> NonEmptyIndices(rs, hi)[p] < NonEmptyIndices(rs, hi)[q]
  {
    if hi > 0 {
      NonEmptyIndicesIncreasing(rs, hi - 1);
    }
  }

  /** NonEmptyIndices misses no non-empty region below `hi`. */
  lemma {:induction false} NonEmptyIndicesComplete(rs: RegionTable, hi: nat)
    requires hi <= RegionCount
    ensures forall j: nat :: j < hi && !IsEmpty(rs[j]) ==> j in NonEmptyIndices(rs, hi)
  {
    if hi > 0 {
      var idx0, idx := NonEmptyIndices(rs, hi - 1), NonEmptyIndices(rs, hi);
      NonEmptyIndicesComplete(rs, hi - 1);
      forall j: nat | j < hi && !IsEmpty(rs[j])
        ensures j in idx
      {
        if j < hi - 1 {
          assert j in idx0 && idx0 <= idx;
        } else {
          assert idx == idx0 + [j];
          assert idx[|idx0|] == j;
        }
      }
    }
  }

  /**
   * The entry for a decoded region spans it: end - start + 1 is the size
   * get_region computes, the encoded field span in 4 KiB units.
   */
  lemma RegionEntrySpan(frba: Frba, i: nat)
    requires i < RegionCount
    ensures var e, w := RegionEntry(DecodeTable(frba), i), Flreg(frba, i);
      && e.end - e.start + 1 == GetRegion(frba, i).size
      && e.end - e.start + 1 == (LimitField(w) - BaseField(w) + 1) * 4096
      && e.name == RegionNames[i]
  {
    RegionFields(frba, i);
  }

  /** The loop, started at a region before any disagreement with the entries so far written, ends as Reference says. */
  lemma {:induction false} WalkFrom(rOld: RegionTable, rNew: RegionTable, i: nat, maxEntries: int)
    requires i <= FirstMismatch(rOld, rNew, 0)
    requires |NonEmptyBelow(rOld, i)| <= Capacity(maxEntries)
    ensures Walk(rOld, rNew, i, maxEntries, NonEmptyBelow(rOld, i)) == Reference(rOld, rNew, maxEntries)
    decreases RegionCount - i
  {
    var k := FirstMismatch(rOld, rNew, 0);
    var acc := NonEmptyBelow(rOld, i);
    var e := NonEmptyBelow(rOld, k);
    NonEmptyBelowPrefix(rOld, i, k);
    if i == k {
      assert Walk(rOld, rNew, i, maxEntries, acc) == Outcome(if i < RegionCount then RegionMismatch(i) else Success, acc);
    } else {
      assert !Differ(rOld, rNew, i);
      if IsEmpty(rOld[i]) {
        assert NonEmptyBelow(rOld, i + 1) == acc;
        WalkFrom(rOld, rNew, i + 1, maxEntries);
      } else {
        assert NonEmptyBelow(rOld, i + 1) == acc + [RegionEntry(rOld, i)];
        NonEmptyBelowPrefix(rOld, i + 1, k);
        if |acc| < maxEntries {
          WalkFrom(rOld, rNew, i + 1, maxEntries);
        } else {
          assert Walk(rOld, rNew, i, maxEntries, acc) == Outcome(CapacityExceeded, acc);
          assert |acc| == Capacity(maxEntries) < |e|;
          assert acc == e[..|acc|];
        }
      }
    }
  }

  /** The source's loop and the loop-free description agree on every pair of tables. */
  lemma WalkIsReference(rOld: RegionTable, rNew: RegionTable, maxEntries: int)
    ensures Walk(rOld, rNew, 0, maxEntries, []) == Reference(rOld, rNew, maxEntries)
  {
    WalkFrom(rOld, rNew, 0, maxEntries);
  }

  // ---------------------------------------------------------------------
  // What the reconciliation promises

  /**
   * Success exactly when the tables agree on all five regions and the
   * non-empty ones fit; then the entries are exactly the non-empty regions.
   */
  lemma ReferenceSuccess(rOld: RegionTable, rNew: RegionTable, maxEntries: int)
    ensures Reference(rOld, rNew, maxEntries).status == Success
      <==> TablesAgree(rOld, rNew) && |NonEmptyBelow(rOld, RegionCount)| <= Capacity(maxEntries)
    ensures Reference(rOld, rNew, maxEntries).status == Success
      ==> Reference(rOld, rNew, maxEntries).emitted == NonEmptyBelow(rOld, RegionCount)
  {
    var k := FirstMismatch(rOld, rNew, 0);
    if TablesAgree(rOld, rNew) {
      assert k == RegionCount;
    }
  }

  /**
   * Two identical region tables are always accepted when their non-empty
   * regions fit: one entry per non-empty region, spanning its decoded size.
   */
  lemma IdenticalTablesSucceed(frba: Frba, maxEntries: int)
    requires |NonEmptyBelow(DecodeTable(frba), RegionCount)| <= Capacity(maxEntries)
    ensures var rs := DecodeTable(frba);
      Reference(rs, rs, maxEntries) == Outcome(Success, NonEmptyBelow(rs, RegionCount))
    ensures var e := NonEmptyBelow(DecodeTable(frba), RegionCount);
      forall p :: 0 <= p < |e| ==> e[p].end - e[p].start + 1 > 0
  {
    var rs := DecodeTable(frba);
    ReferenceSuccess(rs, rs, maxEntries);
    NonEmptyBelowEntries(rs, RegionCount);
    NonEmptyIndicesNonEmpty(rs, RegionCount);
  }

  /**
   * Region `k` is reported as mismatching exactly when it is the first
   * region whose base or limit differs and the non-empty regions before it
   * fit; whether region `k` is empty plays no part.
   */
  lemma ReferenceMismatch(rOld: RegionTable, rNew: RegionTable, maxEntries: int, k: nat)
    ensures Reference(rOld, rNew, maxEntries).status == RegionMismatch(k)
      <==> && k < RegionCount && Differ(rOld, rNew, k)
           && (forall j: nat :: j < k ==> !Differ(rOld, rNew, j))
           && |NonEmptyBelow(rOld, k)| <= Capacity(maxEntries)
  {
    var k' := FirstMismatch(rOld, rNew, 0);
    if k < RegionCount && Differ(rOld, rNew, k) && (forall j: nat :: j < k ==> !Differ(rOld, rNew, j)) {
      assert !(k' < k) && !(k < k');
    }
  }

  /** Whatever the outcome, only the first non-empty regions are written, and no more than fit. */
  lemma ReferenceEmitted(rOld: RegionTable, rNew: RegionTable, maxEntries: int)
    ensures |Reference(rOld, rNew, maxEntries).emitted| <= Capacity(maxEntries)
    ensures Reference(rOld, rNew, maxEntries).emitted <= NonEmptyBelow(rOld, RegionCount)
    ensures Reference(rOld, rNew, maxEntries).status == CapacityExceeded
      ==> |Reference(rOld, rNew, maxEntries).emitted| == Capacity(maxEntries)
  {
    var k := FirstMismatch(rOld, rNew, 0);
    NonEmptyBelowPrefix(rOld, k, RegionCount);
  }

  /** When both region tables are read, ifd_read_romlayout's result is Reference's. */
  lemma RomLayoutTables(oldImage: seq<bv8>, newImage: seq<bv8>, maxEntries: int, fdOld: nat, fdNew: nat)
    requires LocateDescriptor(oldImage) == Some(fdOld) && LocateDescriptor(newImage) == Some(fdNew)
    requires DescriptorTable(oldImage, fdOld).Some? && DescriptorTable(newImage, fdNew).Some?
    ensures RomLayout(oldImage, newImage, maxEntries)
      == Reference(DescriptorTable(oldImage, fdOld).value, DescriptorTable(newImage, fdNew).value, maxEntries)
  {
    WalkIsReference(DescriptorTable(oldImage, fdOld).value, DescriptorTable(newImage, fdNew).value, maxEntries);
  }

  /**
   * The two descriptor checks are independent: the new image's missing
   * descriptor is reported as such, and only after the old one is found.
   */
  lemma RomLayoutDescriptors(oldImage: seq<bv8>, newImage: seq<bv8>, maxEntries: int)
    ensures RomLayout(oldImage, newImage, maxEntries).status == DescriptorNotFound(Old)
      <==> NoSignature(oldImage)
    ensures RomLayout(oldImage, newImage, maxEntries).status == DescriptorNotFound(New)
      <==> !NoSignature(oldImage) && NoSignature(newImage)
    ensures RomLayout(oldImage, newImage, maxEntries).status.DescriptorNotFound?
      ==> RomLayout(oldImage, newImage, maxEntries).emitted == []
  {
    LocateDescriptorNone(oldImage);
    LocateDescriptorNone(newImage);
    match LocateDescriptor(oldImage)
    case None =>
    case Some(fdOld) =>
      match LocateDescriptor(newImage)
      case None =>
      case Some(fdNew) =>
        if DescriptorTable(oldImage, fdOld).Some? && DescriptorTable(newImage, fdNew).Some? {
          RomLayoutTables(oldImage, newImage, maxEntries, fdOld, fdNew);
        }
  }

  /**
   * A region table is refused exactly when both descriptors are found and
   * that table's 20 bytes would run past its image (old image first).
   */
  lemma RomLayoutTableChecks(oldImage: seq<bv8>, newImage: seq<bv8>, maxEntries: int)
    ensures RomLayout(oldImage, newImage, maxEntries).status == RegionTableOutOfBounds(Old)
      <==> && LocateDescriptor(oldImage).Some? && LocateDescriptor(newImage).Some?
           && FrbaOffset(Flmap0(oldImage, LocateDescriptor(oldImage).value)) + FrbaSize > |oldImage|
    ensures RomLayout(oldImage, newImage, maxEntries).status == RegionTableOutOfBounds(New)
      <==> && LocateDescriptor(oldImage).Some? && LocateDescriptor(newImage).Some?
           && FrbaOffset(Flmap0(oldImage, LocateDescriptor(oldImage).value)) + FrbaSize <= |oldImage|
           && FrbaOffset(Flmap0(newImage, LocateDescriptor(newImage).value)) + FrbaSize > |newImage|
    ensures RomLayout(oldImage, newImage, maxEntries).status.RegionTableOutOfBounds?
      ==> RomLayout(oldImage, newImage, maxEntries).emitted == []
  {
    match LocateDescriptor(oldImage)
    case None =>
    case Some(fdOld) =>
      match LocateDescriptor(newImage)
      case None =>
      case Some(fdNew) =>
        if DescriptorTable(oldImage, fdOld).Some? && DescriptorTable(newImage, fdNew).Some? {
          RomLayoutTables(oldImage, newImage, maxEntries, fdOld, fdNew);
        }
  }

  /** No call writes more entries than the capacity admits. */
  lemma RomLayoutBounded(oldImage: seq<bv8>, newImage: seq<bv8>, maxEntries: int)
    ensures |RomLayout(oldImage, newImage, maxEntries).emitted| <= Capacity(maxEntries)
  {
    match LocateDescriptor(oldImage)
    case None =>
    case Some(fdOld) =>
      match LocateDescriptor(newImage)
      case None =>
      case Some(fdNew) =>
        if DescriptorTable(oldImage, fdOld).Some? && DescriptorTable(newImage, fdNew).Some? {
          var rOld := DescriptorTable(oldImage, fdOld).value;
          RomLayoutTables(oldImage, newImage, maxEntries, fdOld, fdNew);
          ReferenceEmitted(rOld, DescriptorTable(newImage, fdNew).value, maxEntries);
        }
  }

  // ---------------------------------------------------------------------
  // ifd_read_romlayout over the caller's array

  /**
   * The loop of ifd_read_romlayout (ifd.c:135-160) over the two decoded
   * tables: entries go to slots `count`, `count + 1`, ... of `entries`.
   */
  method EmitRegions(frOld: Frba, frNew: Frba, entries: array<Entry>, maxEntries: int)
    returns (ret: int, status: Status, count: nat)
    requires maxEntries <= entries.Length
    modifies entries
    ensures var w := Walk(DecodeTable(frOld), DecodeTable(frNew), 0, maxEntries, []);
      && status == w.status && ret == ReturnCode(status)
      && count == |w.emitted| && count <= Capacity(maxEntries)
      && entries[..count] == w.emitted
    ensures forall k :: count <= k < entries.Length ==> entries[k] == old(entries[k])
    ensures ret == 0 || ret == 1
    ensures ret == 0 <==> status.Success?
    ensures status.Success? || status.RegionMismatch? || status.CapacityExceeded?
  {
    ghost var rOld := DecodeTable(frOld);
    ghost var rNew := DecodeTable(frNew);
    ghost var written: seq<Entry> := [];
    count := 0;
    var i := 0;
    while i < RegionCount
      invariant i <= RegionCount
      invariant count == |written| <= Capacity(maxEntries)
      invariant entries[..count] == written
      invariant Walk(rOld, rNew, i, maxEntries, written) == Walk(rOld, rNew, 0, maxEntries, [])
      invariant forall k :: count <= k < entries.Length ==> entries[k] == old(entries[k])
    {
      var regOld := GetRegion(frOld, i);
      var regNew := GetRegion(frNew, i);
      assert regOld == rOld[i] && regNew == rNew[i];
      if regOld.base != regNew.base || regOld.limit != regNew.limit {
        return 1, RegionMismatch(i), count;
      }
      if regOld.size <= 0 {
        i := i + 1;
        continue;
      }
      if count >= maxEntries {
        return 1, CapacityExceeded, count;
      }
      entries[count] := Entry(regOld.base, regOld.limit, RegionNames[i]);
      written := written + [RegionEntry(rOld, i)];
      assert entries[..count + 1] == entries[..count] + [entries[count]];
      count := count + 1;
      i := i + 1;
    }
    return 0, Success, count;
  }

  /**
   * ifd_read_romlayout: `maxEntries` is the count passed in through
   * *n_entries, `count` the one passed back. The first `count` slots of
   * `entries` receive the emitted entries; no other slot changes.
   */
  method ReadRomLayout(oldImage: seq<bv8>, newImage: seq<bv8>, entries: array<Entry>, maxEntries: int)
    returns (ret: int, status: Status, count: nat)
    requires |oldImage| == |newImage|
    requires maxEntries <= entries.Length
    modifies entries
    ensures status == RomLayout(oldImage, newImage, maxEntries).status
    ensures ret == ReturnCode(status)
    ensures ret == 0 || ret == 1
    ensures ret == 0 <==> status.Success?
    ensures status.DescriptorNotFound? || status.RegionTableOutOfBounds? ==> count == 0
    ensures count == |RomLayout(oldImage, newImage, maxEntries).emitted| && count <= Capacity(maxEntries)
    ensures entries[..count] == RomLayout(oldImage, newImage, maxEntries).emitted
    ensures forall k :: count <= k < entries.Length ==> entries[k] == old(entries[k])
  {
    count := 0;

    var fdOld := FindFd(oldImage);
    if fdOld.None? {
      return 1, DescriptorNotFound(Old), count;
    }
    var fdNew := FindFd(newImage);
    if fdNew.None? {
      return 1, DescriptorNotFound(New), count;
    }

    var frOld := FrbaOffset(Flmap0(oldImage, fdOld.value));
    if frOld + FrbaSize > |oldImage| {
      return 1, RegionTableOutOfBounds(Old), count;
    }
    var frNew := FrbaOffset(Flmap0(newImage, fdNew.value));
    if frNew + FrbaSize > |newImage| {
      return 1, RegionTableOutOfBounds(New), count;
    }
    var tOld := ReadFrba(oldImage, frOld);
    var tNew := ReadFrba(newImage, frNew);
    assert RomLayout(oldImage, newImage, maxEntries)
      == Walk(DecodeTable(tOld), DecodeTable(tNew), 0, maxEntries, []);
    ret, status, count := EmitRegions(tOld, tNew, entries, maxEntries);
  }
}
