/**
 From a volume's bytes to a disk's bytes: the block map of `xsan_volume_map_lba_to_physical`
 and the request that `_xsan_volume_submit_single_io_attempt` puts to the device.
 */
module VolumeMap {
  import opened MachineInts
  import opened Outcomes
  import opened Arith
  import opened Storage

  type Disks = map<Uuid, Disk>

  // ---------------------------------------------------------------- which extent, which block

  /** Bytes an extent spans on its disk, as the 64-bit product the code computes. */
  function ExtentBytes(disks: Disks, e: Extent): uint64
    requires e.disk in disks
  {
    Wrap64(e.numBlocks * disks[e.disk].blockSize)
  }

  predicate Usable(disks: Disks, e: Extent) {
    e.disk in disks && disks[e.disk].blockSize != 0
  }

  /** The extent's disk is known and the block index falls in the extent's range of volume blocks. */
  predicate Covers(disks: Disks, e: Extent, blockSize: uint32, lba: uint64)
    requires blockSize > 0
  {
    Usable(disks, e) &&
    e.volumeStartLba <= lba < Wrap64(e.volumeStartLba + ExtentBytes(disks, e) / blockSize)
  }

  /** Index of the first extent that covers the block, or the number of extents. */
  function FirstCovering(disks: Disks, extents: seq<Extent>, blockSize: uint32, lba: uint64): (i: nat)
    requires blockSize > 0
    ensures i <= |extents|
    ensures i < |extents| ==> Covers(disks, extents[i], blockSize, lba)
    ensures forall j :: 0 <= j < i ==> !Covers(disks, extents[j], blockSize, lba)
  {
    if extents == [] then 0
    else if Covers(disks, extents[0], blockSize, lba) then 0
    else FirstCovering(disks, extents[1..], blockSize, lba) + 1
  }

  datatype Mapping = Mapping(disk: Uuid, block: uint64, blockSize: uint32)

  /** The disk block where a covered volume block starts, rounded down to whole disk blocks. */
  function Place(disks: Disks, e: Extent, blockSize: uint32, lba: uint64): Mapping
    requires blockSize > 0 && Covers(disks, e, blockSize, lba)
  {
    var size := disks[e.disk].blockSize;
    Mapping(e.disk, Wrap64(e.startBlock + (lba - e.volumeStartLba) * blockSize / size), size)
  }

  function Map(disks: Disks, vol: Volume, meta: Option<AllocMeta>, lba: uint64): (r: Result<Mapping>)
    ensures r.Ok? ==> r.value.disk in disks && r.value.blockSize == disks[r.value.disk].blockSize > 0
  {
    if lba >= vol.numBlocks then Err(OutOfBounds)
    else if meta.None? then Err(UnmappedLba)
    else
      var m := meta.value;
      if m.blockSize == 0 then Err(StorageGeneric)
      else
        var i := FirstCovering(disks, m.extents, m.blockSize, lba);
        if i == |m.extents| then Err(UnmappedLba) else Ok(Place(disks, m.extents[i], m.blockSize, lba))
  }

  /** A covered block lies whole inside its extent. */
  lemma CoveredBlockFits(disks: Disks, e: Extent, blockSize: uint32, lba: uint64)
    requires blockSize > 0 && Covers(disks, e, blockSize, lba)
    ensures (lba - e.volumeStartLba + 1) * blockSize <= ExtentBytes(disks, e) <= e.numBlocks * disks[e.disk].blockSize
  {
    var total := ExtentBytes(disks, e);
    var n := total / blockSize;
    DivBounds(total, blockSize);
    NoWrap(e.volumeStartLba, n, lba);
    MulMonotone(lba - e.volumeStartLba + 1, n, blockSize);
    MulNonneg(e.numBlocks, disks[e.disk].blockSize);
    WrapBound(e.numBlocks * disks[e.disk].blockSize);
  }

  /** The whole block lies in the extent's part of the volume, over the integers. */
  predicate Contains(disks: Disks, e: Extent, blockSize: uint32, lba: uint64) {
    && e.disk in disks && disks[e.disk].blockSize > 0
    && e.volumeStartLba <= lba
    && (lba - e.volumeStartLba + 1) * blockSize <= e.numBlocks * disks[e.disk].blockSize
  }

  /** Unless the extent's size or end wraps around, the range test is that. */
  lemma CoversIffContains(disks: Disks, e: Extent, blockSize: uint32, lba: uint64)
    requires blockSize > 0
    requires e.disk in disks ==> e.volumeStartLba + e.numBlocks * disks[e.disk].blockSize < TWO64
    ensures Covers(disks, e, blockSize, lba) <==> Contains(disks, e, blockSize, lba)
  {
    if Usable(disks, e) {
      var total := e.numBlocks * disks[e.disk].blockSize;
      MulNonneg(e.numBlocks, disks[e.disk].blockSize);
      DivMod(total, blockSize);
      DivBounds(total, blockSize);
      var n := total / blockSize;
      if lba - e.volumeStartLba + 1 <= n {
        MulMonotone(lba - e.volumeStartLba + 1, n, blockSize);
      } else {
        MulMonotone(n + 1, lba - e.volumeStartLba + 1, blockSize);
        Distribute(n, 1, blockSize);
      }
    }
  }

  /** A 64-bit sum that exceeds one of its terms has not wrapped. */
  lemma NoWrap(a: uint64, b: uint64, x: int)
    requires a <= x < Wrap64(a + b)
    ensures x < a + b
  {
    WrapBound(a + b);
  }

  lemma WrapBound(x: nat)
    ensures Wrap64(x) <= x
  {
    DivBounds(x, TWO64);
    DivMod(x, TWO64);
  }

  /** A disk block index inside an extent, with every product and sum as the 64-bit code computes it. */
  method PlaceInExtent(disks: Disks, e: Extent, blockSize: uint32, lba: uint64) returns (r: Result<Mapping>)
    requires blockSize > 0 && Covers(disks, e, blockSize, lba)
    ensures r == Ok(Place(disks, e, blockSize, lba))
  {
    var size := disks[e.disk].blockSize;
    var totalBytes := Wrap64(e.numBlocks * size);
    var offsetBlocks := lba - e.volumeStartLba;
    CoveredBlockFits(disks, e, blockSize, lba);
    Distribute(offsetBlocks, 1, blockSize);
    MulNonneg(offsetBlocks, blockSize);
    var offsetBytes := Wrap64(offsetBlocks * blockSize);
    if Wrap64(offsetBytes + blockSize) > totalBytes && offsetBytes < totalBytes {
      return Err(Internal);
    }
    return Ok(Mapping(e.disk, Wrap64(e.startBlock + offsetBytes / size), size));
  }

  /** The first extent whose range test the block passes maps it this far into its run of disk blocks. */
  ghost predicate IsFirst(disks: Disks, m: AllocMeta, lba: uint64, i: int, at: Mapping)
    requires m.blockSize > 0
  {
    && 0 <= i < |m.extents| && Covers(disks, m.extents[i], m.blockSize, lba)
    && (forall j :: 0 <= j < i ==> !Covers(disks, m.extents[j], m.blockSize, lba))
    && var e := m.extents[i];
    var size := disks[e.disk].blockSize;
    at == Mapping(e.disk, Wrap64(e.startBlock + (lba - e.volumeStartLba) * m.blockSize / size), size)
  }

  ghost predicate Unmapped(disks: Disks, meta: Option<AllocMeta>, lba: uint64) {
    || meta.None?
    || (meta.value.blockSize > 0 && forall e <- meta.value.extents :: !Covers(disks, e, meta.value.blockSize, lba))
  }

  lemma NoCovering(disks: Disks, extents: seq<Extent>, blockSize: uint32, lba: uint64)
    requires blockSize > 0
    ensures FirstCovering(disks, extents, blockSize, lba) == |extents| <==> forall e <- extents :: !Covers(disks, e, blockSize, lba)
  {
    hide Covers;
    var i := FirstCovering(disks, extents, blockSize, lba);
    if i < |extents| {
      assert extents[i] in extents;
    }
  }

  lemma MapMeaning(disks: Disks, vol: Volume, meta: Option<AllocMeta>, lba: uint64)
    ensures var r := Map(disks, vol, meta, lba);
      && r != Err(Internal)
      && (r == Err(OutOfBounds) <==> lba >= vol.numBlocks)
      && (r == Err(StorageGeneric) <==> lba < vol.numBlocks && meta.Some? && meta.value.blockSize == 0)
      && (r == Err(UnmappedLba) <==> lba < vol.numBlocks && Unmapped(disks, meta, lba))
      && (r.Ok? ==> meta.Some? && meta.value.blockSize > 0 && exists i :: IsFirst(disks, meta.value, lba, i, r.value))
  {
    hide Covers, FirstCovering;
    if meta.Some? && meta.value.blockSize > 0 {
      NoCovering(disks, meta.value.extents, meta.value.blockSize, lba);
      var i := FirstCovering(disks, meta.value.extents, meta.value.blockSize, lba);
      if lba < vol.numBlocks && i < |meta.value.extents| {
        FirstIs(disks, meta.value, lba, i);
      }
    }
  }

  lemma FirstIs(disks: Disks, m: AllocMeta, lba: uint64, i: nat)
    requires m.blockSize > 0 && i < |m.extents| && i == FirstCovering(disks, m.extents, m.blockSize, lba)
    ensures IsFirst(disks, m, lba, i, Place(disks, m.extents[i], m.blockSize, lba))
  {
  }

  /**
   The loop of `xsan_volume_map_lba_to_physical` over the extents. `PlaceInExtent` keeps the code's check that
   a block starts inside the extent and ends outside it; no input reaches that internal-error branch.
   */
  method MapLbaToPhysical(disks: Disks, vol: Volume, meta: Option<AllocMeta>, lba: uint64) returns (r: Result<Mapping>)
    ensures r == Map(disks, vol, meta, lba)
    ensures r != Err(Internal)
    ensures r == Err(OutOfBounds) <==> lba >= vol.numBlocks
    ensures r == Err(StorageGeneric) <==> lba < vol.numBlocks && meta.Some? && meta.value.blockSize == 0
    ensures r == Err(UnmappedLba) <==> lba < vol.numBlocks && Unmapped(disks, meta, lba)
    ensures r.Ok? ==> meta.Some? && meta.value.blockSize > 0 && exists i :: IsFirst(disks, meta.value, lba, i, r.value)
  {
    hide Unmapped, IsFirst, Place;
    MapMeaning(disks, vol, meta, lba);
    if lba >= vol.numBlocks {
      return Err(OutOfBounds);
    }
    if meta.None? {
      return Err(UnmappedLba);
    }
    var m := meta.value;
    if m.blockSize == 0 {
      return Err(StorageGeneric);
    }
    if |m.extents| == 0 {
      return Err(UnmappedLba);
    }
    ghost var first := FirstCovering(disks, m.extents, m.blockSize, lba);
    for i := 0 to |m.extents|
      invariant i <= first
    {
      var e := m.extents[i];
      if e.disk !in disks || disks[e.disk].blockSize == 0 {
        continue;
      }
      var totalBytes := Wrap64(e.numBlocks * disks[e.disk].blockSize);
      var blocksHere := totalBytes / m.blockSize;
      if lba >= e.volumeStartLba && lba < Wrap64(e.volumeStartLba + blocksHere) {
        r := PlaceInExtent(disks, e, m.blockSize, lba);
        return;
      }
    }
    return Err(UnmappedLba);
  }
}
