/**
 A volume's bytes against the disks' bytes. An I/O maps only its first block and then submits its whole length;
 this module says exactly when that is the same as reading or writing a flat array, and proves both directions.
 */
module VolumeIo {
  import opened MachineInts
  import opened Outcomes
  import opened Arith
  import opened Storage
  import opened VolumeMap

  // ---------------------------------------------------------------- from an I/O to a device request

  datatype Request = Request(disk: Uuid, offsetBlocks: uint64, numBlocks: uint32)

  /** `xsan_io_request_create` and the size checks of `xsan_io_submit_request_to_bdev`, down to the device's own range check. */
  function DeviceRequest(disks: Disks, m: Mapping, len: uint64): Result<Request>
    requires m.disk in disks && m.blockSize == disks[m.disk].blockSize > 0
  {
    var at := Wrap64(m.block * m.blockSize);
    if len == 0 || at % m.blockSize != 0 || len % m.blockSize != 0 then Err(OutOfMemory)
    else
      DivBounds(at, m.blockSize);
      var n := Wrap32(len / m.blockSize);
      if n == 0 || n * m.blockSize != len then Err(InvalidParam)
      else if at / m.blockSize + n > disks[m.disk].numBlocks then Err(Io)
      else Ok(Request(m.disk, at / m.blockSize, n))
  }

  /** The parameter check of `_xsan_volume_submit_single_io_attempt`; the sum is a 64-bit one. */
  predicate Rejected(vol: Volume, off: uint64, len: uint64) {
    vol.blockSize == 0 || off % vol.blockSize != 0 || len % vol.blockSize != 0 || len == 0 || Wrap64(off + len) > vol.sizeBytes
  }

  /** The device request an I/O on a volume turns into, or the error it is refused with. */
  function Plan(disks: Disks, vol: Volume, meta: Option<AllocMeta>, off: uint64, len: uint64): Result<Request> {
    if Rejected(vol, off, len) then Err(InvalidParamAlignment)
    else
      DivBounds(off, vol.blockSize);
      var m :- Map(disks, vol, meta, off / vol.blockSize);
      if len % m.blockSize != 0 then Err(InvalidParamAlignment)
      else if !disks[m.disk].hasDescriptor then Err(ResourceUnavailable)
      else DeviceRequest(disks, m, len)
  }

  /** A request that reaches the device covers exactly the bytes asked for and lies on the disk. */
  lemma PlanLength(disks: Disks, vol: Volume, meta: Option<AllocMeta>, off: uint64, len: uint64)
    requires Plan(disks, vol, meta, off, len).Ok?
    ensures var r := Plan(disks, vol, meta, off, len).value;
      && r.disk in disks
      && r.numBlocks * disks[r.disk].blockSize == len
      && r.offsetBlocks + r.numBlocks <= disks[r.disk].numBlocks
  {
  }

  /** An I/O that is empty, does not consist of whole volume blocks, or ends past the volume as 64 bits tell it. */
  predicate Malformed(vol: Volume, off: uint64, len: uint64) {
    vol.blockSize == 0 || len == 0 || off % vol.blockSize > 0 || len % vol.blockSize > 0 || (off + len) % TWO64 > vol.sizeBytes
  }

  /** No such I/O reaches a device; what does reach one is on a mapped block of a disk with a descriptor. */
  lemma PlanGuards(disks: Disks, vol: Volume, meta: Option<AllocMeta>, off: uint64, len: uint64)
    ensures var plan := Plan(disks, vol, meta, off, len);
      && (Malformed(vol, off, len) ==> plan == Err(InvalidParamAlignment))
      && (plan.Ok? ==>
            && vol.blockSize > 0 && off % vol.blockSize == 0 && len % vol.blockSize == 0 && len > 0
            && off / vol.blockSize < vol.numBlocks && meta.Some?
            && plan.value.disk in disks && disks[plan.value.disk].hasDescriptor
            && len % disks[plan.value.disk].blockSize == 0)
  {
  }

  /** Past those checks the block map's error is the I/O's, and so is a missing descriptor. */
  lemma PlanPassesErrors(disks: Disks, vol: Volume, meta: Option<AllocMeta>, off: uint64, len: uint64)
    requires !Malformed(vol, off, len)
    ensures 0 <= off / vol.blockSize < TWO64
    ensures var plan, mapped := Plan(disks, vol, meta, off, len), Map(disks, vol, meta, off / vol.blockSize);
      && (mapped.Err? ==> plan == Err(mapped.error))
      && (mapped.Ok? ==> mapped.value.disk in disks && mapped.value.blockSize > 0)
      && (mapped.Ok? && len % mapped.value.blockSize > 0 ==> plan == Err(InvalidParamAlignment))
      && (mapped.Ok? && len % mapped.value.blockSize == 0 && !disks[mapped.value.disk].hasDescriptor ==> plan == Err(ResourceUnavailable))
  {
    DivBounds(off, vol.blockSize);
  }

  /** An I/O that reaches the device stays inside the volume exactly when its end does not wrap around. */
  lemma InRangeIffNoWrap(disks: Disks, vol: Volume, meta: Option<AllocMeta>, off: uint64, len: uint64)
    requires Plan(disks, vol, meta, off, len).Ok?
    ensures off + len <= vol.sizeBytes <==> off + len < TWO64
  {
  }

  const LARGEST_DISK_BLOCK: int := 0x1_0000

  /** From this size plus one block on, an I/O at the end of a volume can be long enough to wrap around. */
  const ESCAPE_SIZE: int := TWO64 - 0x1_0000_0000_0000 + LARGEST_DISK_BLOCK

  predicate UsualDisks(disks: Disks) {
    forall d <- disks :: disks[d].blockSize <= LARGEST_DISK_BLOCK
  }

  /**
   The check on the 64-bit sum can be fooled by wrap-around, but on a smaller volume the length is then too long for
   the 32-bit block count: no out-of-range I/O reaches the device.
   */
  lemma NoOutOfRangeRequest(disks: Disks, vol: Volume, meta: Option<AllocMeta>, off: uint64, len: uint64)
    requires vol.sizeBytes == vol.numBlocks * vol.blockSize
    requires UsualDisks(disks)
    requires vol.sizeBytes < ESCAPE_SIZE + vol.blockSize
    requires Plan(disks, vol, meta, off, len).Ok?
    ensures off + len <= vol.sizeBytes
  {
    var r := Plan(disks, vol, meta, off, len).value;
    PlanLength(disks, vol, meta, off, len);
    MulMonotone(disks[r.disk].blockSize, LARGEST_DISK_BLOCK, r.numBlocks);
    DivBounds(off, vol.blockSize);
    DivMod(off, vol.blockSize);
    MulMonotone(off / vol.blockSize + 1, vol.numBlocks, vol.blockSize);
    Distribute(off / vol.blockSize, 1, vol.blockSize);
  }

  // ---------------------------------------------------------------- where a volume's bytes live

  datatype Loc = Loc(disk: Uuid, pos: nat)

  /** Every block of the volume is covered by an extent, and every extent lies on an open disk of addressable size. */
  ghost predicate LaidOut(disks: Disks, m: AllocMeta) {
    && m.blockSize > 0
    && (forall lba: uint64 :: lba < m.totalBlocks ==> FirstCovering(disks, m.extents, m.blockSize, lba) < |m.extents|)
    && (forall e <- m.extents :: OnDisk(disks, e))
  }

  predicate OnDisk(disks: Disks, e: Extent) {
    && e.disk in disks
    && disks[e.disk].hasDescriptor
    && disks[e.disk].blockSize > 0
    && disks[e.disk].numBlocks * disks[e.disk].blockSize < TWO64
    && e.startBlock + e.numBlocks <= disks[e.disk].numBlocks
  }

  /** The volume descriptor and its allocation record agree. */
  predicate Describes(m: AllocMeta, vol: Volume) {
    m.blockSize == vol.blockSize && m.totalBlocks == vol.numBlocks && vol.sizeBytes == vol.numBlocks * vol.blockSize
  }

  ghost predicate InVolume(m: AllocMeta, off: int) {
    m.blockSize > 0 && 0 <= off < m.totalBlocks * m.blockSize
  }

  /** The extent that holds a byte of the volume. */
  ghost function HoldingExtent(disks: Disks, m: AllocMeta, off: nat): (e: Extent)
    requires LaidOut(disks, m) && InVolume(m, off)
    ensures e in m.extents && Covers(disks, e, m.blockSize, off / m.blockSize)
  {
    BlockIndex(m, off);
    m.extents[FirstCovering(disks, m.extents, m.blockSize, off / m.blockSize)]
  }

  lemma BlockIndex(m: AllocMeta, off: nat)
    requires InVolume(m, off)
    ensures 0 <= off / m.blockSize < m.totalBlocks
  {
    DivBounds(off, m.blockSize);
    DivMod(off, m.blockSize);
    if off / m.blockSize >= m.totalBlocks {
      MulMonotone(m.totalBlocks, off / m.blockSize, m.blockSize);
    }
  }

  /** Where a byte of the volume is kept: as far into the disk run as it is into the extent's part of the volume. */
  ghost function Home(disks: Disks, m: AllocMeta, off: nat): (l: Loc)
    requires LaidOut(disks, m) && InVolume(m, off)
    ensures l.disk in disks
  {
    var e := HoldingExtent(disks, m, off);
    HomeBounds(disks, m, off);
    Loc(e.disk, e.startBlock * disks[e.disk].blockSize + (off - e.volumeStartLba * m.blockSize))
  }

  lemma HomeBounds(disks: Disks, m: AllocMeta, off: nat)
    requires LaidOut(disks, m) && InVolume(m, off)
    ensures var e := HoldingExtent(disks, m, off);
      && 0 <= off - e.volumeStartLba * m.blockSize < e.numBlocks * disks[e.disk].blockSize
      && 0 <= e.startBlock * disks[e.disk].blockSize
  {
    var e := HoldingExtent(disks, m, off);
    var lba := off / m.blockSize;
    BlockIndex(m, off);
    DivMod(off, m.blockSize);
    CoveredBlockFits(disks, e, m.blockSize, lba);
    MulMonotone(e.volumeStartLba, lba, m.blockSize);
    Distribute(lba - e.volumeStartLba, 1, m.blockSize);
    Distribute(lba, e.volumeStartLba, m.blockSize);
    MulNonneg(e.startBlock, disks[e.disk].blockSize);
  }

  /** A byte's home lies in the disk range of the extent that holds it, and on the disk. */
  lemma HomeInExtent(disks: Disks, m: AllocMeta, off: nat)
    requires LaidOut(disks, m) && InVolume(m, off)
    ensures var e := HoldingExtent(disks, m, off);
      var size := disks[e.disk].blockSize;
      && Home(disks, m, off).disk == e.disk
      && e.startBlock * size <= Home(disks, m, off).pos < (e.startBlock + e.numBlocks) * size <= disks[e.disk].numBlocks * size
  {
    var e := HoldingExtent(disks, m, off);
    var size := disks[e.disk].blockSize;
    HomeBounds(disks, m, off);
    Distribute(e.startBlock, e.numBlocks, size);
    MulMonotone(e.startBlock + e.numBlocks, disks[e.disk].numBlocks, size);
  }

  // ---------------------------------------------------------------- contents

  type Contents = map<Uuid, seq<byte>>

  function DiskBytes(d: Disk): nat {
    MulNonneg(d.numBlocks, d.blockSize);
    d.numBlocks * d.blockSize
  }

  /** The contents have the disks' sizes. */
  ghost predicate Fits(disks: Disks, c: Contents) {
    c.Keys == disks.Keys && forall d <- disks :: |c[d]| == DiskBytes(disks[d])
  }

  /** The volume as a flat array of bytes. */
  ghost function View(disks: Disks, m: AllocMeta, c: Contents): (v: seq<byte>)
    requires LaidOut(disks, m) && Fits(disks, c)
    ensures |v| == m.totalBlocks * m.blockSize
    ensures forall i :: 0 <= i < |v| ==> InVolume(m, i) && v[i] == ByteAt(disks, c, Home(disks, m, i))
  {
    MulNonneg(m.totalBlocks, m.blockSize);
    seq(m.totalBlocks * m.blockSize,
        i requires 0 <= i < m.totalBlocks * m.blockSize => ByteAt(disks, c, Home(disks, m, i)))
  }

  /** A byte of a disk; positions beyond the end read as zero. */
  ghost function ByteAt(disks: Disks, c: Contents, l: Loc): byte
    requires Fits(disks, c) && l.disk in disks
  {
    if l.pos < |c[l.disk]| then c[l.disk][l.pos] else 0
  }

  predicate ValidRequest(disks: Disks, r: Request) {
    r.disk in disks && r.offsetBlocks + r.numBlocks <= disks[r.disk].numBlocks
  }

  /** First byte and length of a request on its disk. */
  function Start(disks: Disks, r: Request): (n: nat)
    requires ValidRequest(disks, r)
  {
    MulNonneg(r.offsetBlocks, disks[r.disk].blockSize);
    r.offsetBlocks * disks[r.disk].blockSize
  }

  function Length(disks: Disks, r: Request): (n: nat)
    requires ValidRequest(disks, r)
  {
    MulNonneg(r.numBlocks, disks[r.disk].blockSize);
    r.numBlocks * disks[r.disk].blockSize
  }

  lemma RequestOnDisk(disks: Disks, r: Request)
    requires ValidRequest(disks, r)
    ensures Start(disks, r) + Length(disks, r) <= DiskBytes(disks[r.disk])
  {
    Distribute(r.offsetBlocks, r.numBlocks, disks[r.disk].blockSize);
    MulMonotone(r.offsetBlocks + r.numBlocks, disks[r.disk].numBlocks, disks[r.disk].blockSize);
  }

  /** What the device returns for a read. */
  ghost function ReadAt(disks: Disks, c: Contents, r: Request): (s: seq<byte>)
    requires Fits(disks, c) && ValidRequest(disks, r)
    ensures |s| == Length(disks, r)
    ensures forall i :: 0 <= i < |s| ==> s[i] == ByteAt(disks, c, Loc(r.disk, Start(disks, r) + i))
  {
    RequestOnDisk(disks, r);
    c[r.disk][Start(disks, r)..Start(disks, r) + Length(disks, r)]
  }

  /** The contents after the device has carried out a write. */
  ghost function WriteAt(disks: Disks, c: Contents, r: Request, data: seq<byte>): (c': Contents)
    requires Fits(disks, c) && ValidRequest(disks, r) && |data| == Length(disks, r)
    ensures Fits(disks, c')
  {
    RequestOnDisk(disks, r);
    var s := c[r.disk];
    c[r.disk := s[..Start(disks, r)] + data + s[Start(disks, r) + |data|..]]
  }

  lemma WriteAtByte(disks: Disks, c: Contents, r: Request, data: seq<byte>, l: Loc)
    requires Fits(disks, c) && ValidRequest(disks, r) && |data| == Length(disks, r) && l.disk in disks
    ensures ByteAt(disks, WriteAt(disks, c, r, data), l) ==
            if l.disk == r.disk && Start(disks, r) <= l.pos < Start(disks, r) + |data| then data[l.pos - Start(disks, r)]
            else ByteAt(disks, c, l)
  {
    hide Start, Length;
    RequestOnDisk(disks, r);
  }

  // ---------------------------------------------------------------- exactly when an I/O is the flat one

  /** Whole volume blocks inside the volume. */
  predicate Aligned(m: AllocMeta, off: uint64, len: uint64) {
    m.blockSize > 0 && off % m.blockSize == 0 && len % m.blockSize == 0 && len > 0 && off + len <= m.totalBlocks * m.blockSize
  }

  /**
   The condition: the first byte sits on a disk-block boundary, the length is a whole number of disk blocks that fits
   the 32-bit count, and every further byte sits right behind the one before it on the same disk.
   */
  ghost predicate Direct(disks: Disks, m: AllocMeta, off: uint64, len: uint64) {
    && LaidOut(disks, m) && Aligned(m, off, len)
    && var h := Home(disks, m, off);
    var size := disks[h.disk].blockSize;
    && size > 0 && h.pos % size == 0
    && len % size == 0 && len / size < TWO32
    && forall p :: off <= p < off + len ==> Home(disks, m, p) == Loc(h.disk, h.pos + (p - off))
  }

  /** The request the code makes starts at the first byte's home, rounded down to a disk block. */
  lemma PlanAtHome(disks: Disks, vol: Volume, m: AllocMeta, off: uint64, len: uint64)
    requires LaidOut(disks, m) && Describes(m, vol) && Aligned(m, off, len)
    ensures var h := Home(disks, m, off);
      var size := disks[h.disk].blockSize;
      && size > 0
      && 0 <= h.pos / size < TWO64
      && Plan(disks, vol, Some(m), off, len) ==
         if len % size != 0 then Err(InvalidParamAlignment)
         else if len / size >= TWO32 then Err(InvalidParam)
         else if h.pos / size + len / size > disks[h.disk].numBlocks then Err(Io)
         else Ok(Request(h.disk, h.pos / size, len / size))
  {
    var e := HoldingExtent(disks, m, off);
    var size := disks[e.disk].blockSize;
    var lba := off / m.blockSize;
    BlockIndex(m, off);
    HomeBlock(disks, m, off);
    var block := Home(disks, m, off).pos / size;
    assert Map(disks, vol, Some(m), lba) == Ok(Mapping(e.disk, block, size));
    DeviceRequestAt(disks, e.disk, block, len);
  }

  lemma HomeBlock(disks: Disks, m: AllocMeta, off: uint64)
    requires LaidOut(disks, m) && InVolume(m, off) && off % m.blockSize == 0
    ensures var e := HoldingExtent(disks, m, off);
      var size := disks[e.disk].blockSize;
      var block := Home(disks, m, off).pos / size;
      && 0 <= off / m.blockSize < TWO64
      && 0 <= block < disks[e.disk].numBlocks
      && Place(disks, e, m.blockSize, off / m.blockSize) == Mapping(e.disk, block, size)
  {
    var e := HoldingExtent(disks, m, off);
    var size := disks[e.disk].blockSize;
    var lba := off / m.blockSize;
    var x := off - e.volumeStartLba * m.blockSize;
    BlockIndex(m, off);
    HomeBounds(disks, m, off);
    HomeInExtent(disks, m, off);
    DivMod(off, m.blockSize);
    Distribute(lba, e.volumeStartLba, m.blockSize);
    assert x == (lba - e.volumeStartLba) * m.blockSize;
    DivMod(x, size);
    DivBounds(x, size);
    Distribute(e.startBlock, x / size, size);
    var pos := Home(disks, m, off).pos;
    DivUnique(pos, size, e.startBlock + x / size);
    if pos / size >= disks[e.disk].numBlocks {
      MulMonotone(disks[e.disk].numBlocks, pos / size, size);
    }
  }

  lemma DeviceRequestAt(disks: Disks, d: Uuid, block: uint64, len: uint64)
    requires d in disks && disks[d].blockSize > 0 && disks[d].numBlocks * disks[d].blockSize < TWO64
    requires block < disks[d].numBlocks && len > 0
    ensures var size := disks[d].blockSize;
      DeviceRequest(disks, Mapping(d, block, size), len) ==
        if len % size != 0 then Err(OutOfMemory)
        else if len / size >= TWO32 then Err(InvalidParam)
        else if block + len / size > disks[d].numBlocks then Err(Io)
        else Ok(Request(d, block, len / size))
  {
    var size := disks[d].blockSize;
    MulMonotone(block, disks[d].numBlocks, size);
    MulNonneg(block, size);
    MulDiv(block, size);
    DivMod(len, size);
    DivBounds(len, size);
    var n: int := Wrap32(len / size);
    if len % size == 0 && len / size >= TWO32 {
      MulMonotone(n + 1, len / size, size);
      Distribute(n, 1, size);
    }
  }

  /** Outcome of a read, and contents after a write, for a planned request. */
  ghost function ReadOutcome(disks: Disks, c: Contents, plan: Result<Request>): Result<seq<byte>>
    requires Fits(disks, c) && (plan.Ok? ==> ValidRequest(disks, plan.value))
  {
    if plan.Ok? then Ok(ReadAt(disks, c, plan.value)) else Err(plan.error)
  }

  ghost function WriteOutcome(disks: Disks, c: Contents, plan: Result<Request>, data: seq<byte>): (c': Contents)
    requires Fits(disks, c) && (plan.Ok? ==> ValidRequest(disks, plan.value) && |data| == Length(disks, plan.value))
    ensures Fits(disks, c')
  {
    if plan.Ok? then WriteAt(disks, c, plan.value, data) else c
  }

  /** In the direct case the request starts at the first byte's home and is as long as the I/O. */
  lemma DirectPlan(disks: Disks, vol: Volume, m: AllocMeta, off: uint64, len: uint64)
    requires LaidOut(disks, m) && Describes(m, vol) && Aligned(m, off, len) && Direct(disks, m, off, len)
    ensures var plan := Plan(disks, vol, Some(m), off, len);
      && plan.Ok? && ValidRequest(disks, plan.value)
      && plan.value.disk == Home(disks, m, off).disk
      && Start(disks, plan.value) == Home(disks, m, off).pos
      && Length(disks, plan.value) == len
  {
    hide Plan, Home, HoldingExtent, FirstCovering, LaidOut;
    var h := Home(disks, m, off);
    var size := disks[h.disk].blockSize;
    PlanAtHome(disks, vol, m, off, len);
    DivMod(h.pos, size);
    DivMod(len, size);
    // The last byte is on the disk, so the whole request is.
    var last := Home(disks, m, off + len - 1);
    assert last == Loc(h.disk, h.pos + len - 1);
    HomeInExtent(disks, m, off + len - 1);
    Distribute(h.pos / size, len / size, size);
    CancelMul(h.pos / size + len / size, disks[h.disk].numBlocks, size);
  }

  /** Outside the direct case, a request that is made at all puts some byte of the I/O in the wrong place. */
  lemma IndirectMisses(disks: Disks, vol: Volume, m: AllocMeta, off: uint64, len: uint64) returns (p: nat)
    requires LaidOut(disks, m) && Describes(m, vol) && Aligned(m, off, len) && !Direct(disks, m, off, len)
    requires Plan(disks, vol, Some(m), off, len).Ok?
    ensures var r := Plan(disks, vol, Some(m), off, len).value;
      && ValidRequest(disks, r)
      && Length(disks, r) == len
      && off <= p < off + len
      && Home(disks, m, p) != Loc(r.disk, Start(disks, r) + (p - off))
  {
    hide Plan, Home, HoldingExtent, FirstCovering, LaidOut;
    var h := Home(disks, m, off);
    var size := disks[h.disk].blockSize;
    PlanAtHome(disks, vol, m, off, len);
    PlanLength(disks, vol, Some(m), off, len);
    DivMod(h.pos, size);
    if h.pos % size != 0 {
      p := off;
    } else {
      p :| off <= p < off + len && Home(disks, m, p) != Loc(h.disk, h.pos + (p - off));
    }
  }

  /** All-zero contents, except for a single one. */
  ghost function Marked(disks: Disks, l: Loc): (c: Contents)
    ensures Fits(disks, c)
  {
    map d <- disks :: seq(DiskBytes(disks[d]), i requires i >= 0 => if Loc(d, i) == l then 1 else 0)
  }

  lemma DirectRead(disks: Disks, vol: Volume, m: AllocMeta, off: uint64, len: uint64, c: Contents)
    requires LaidOut(disks, m) && Describes(m, vol) && Aligned(m, off, len) && Direct(disks, m, off, len) && Fits(disks, c)
    ensures var plan := Plan(disks, vol, Some(m), off, len);
      && plan.Ok? && ValidRequest(disks, plan.value)
      && ReadAt(disks, c, plan.value) == View(disks, m, c)[off..off + len]
  {
    hide Plan, Home, HoldingExtent, FirstCovering, LaidOut, View, ReadAt, Start, Length;
    DirectPlan(disks, vol, m, off, len);
    var r := Plan(disks, vol, Some(m), off, len).value;
    var s, v := ReadAt(disks, c, r), View(disks, m, c);
    forall i | 0 <= i < len
      ensures s[i] == v[off..off + len][i]
    {
      assert Home(disks, m, off + i) == Loc(r.disk, Start(disks, r) + i);
    }
  }

  /**
   A read returns the volume's own bytes, whatever the disks hold, if and only if the I/O is direct.
   */
  lemma ReadIsFlatIffDirect(disks: Disks, vol: Volume, m: AllocMeta, off: uint64, len: uint64)
    requires LaidOut(disks, m) && Describes(m, vol) && Aligned(m, off, len)
    ensures var plan := Plan(disks, vol, Some(m), off, len);
      && (plan.Ok? ==> ValidRequest(disks, plan.value))
      && (Direct(disks, m, off, len) <==>
          forall c: Contents :: Fits(disks, c) ==>
            ReadOutcome(disks, c, plan) == Ok(View(disks, m, c)[off..off + len]))
  {
    hide Plan, Home, HoldingExtent, FirstCovering, LaidOut, View, ReadAt, Start, Length, Direct;
    var plan := Plan(disks, vol, Some(m), off, len);
    if Direct(disks, m, off, len) {
      DirectPlan(disks, vol, m, off, len);
      forall c: Contents | Fits(disks, c)
        ensures ReadOutcome(disks, c, plan) == Ok(View(disks, m, c)[off..off + len])
      {
        DirectRead(disks, vol, m, off, len, c);
      }
    } else if plan.Ok? {
      var p := IndirectMisses(disks, vol, m, off, len);
      var r := plan.value;
      var c := Marked(disks, Loc(r.disk, Start(disks, r) + (p - off)));
      RequestOnDisk(disks, r);
      assert ReadAt(disks, c, r)[p - off] == 1;
      assert View(disks, m, c)[p] == 0;
      assert View(disks, m, c)[off..off + len][p - off] == 0;
    } else {
      var c := Marked(disks, Loc(NULL_UUID, 0));
      assert ReadOutcome(disks, c, plan).Err?;
    }
  }

  /** No two extents of the list share a disk block. */
  ghost predicate Separate(extents: seq<Extent>) {
    forall i, j :: 0 <= i < j < |extents| ==> Apart(extents[i], extents[j])
  }

  predicate Apart(e: Extent, e': Extent) {
    || e.disk != e'.disk
    || e.numBlocks == 0 || e'.numBlocks == 0
    || e.startBlock + e.numBlocks <= e'.startBlock
    || e'.startBlock + e'.numBlocks <= e.startBlock
  }

  /** Bytes held by extents that are apart have different homes. */
  lemma ApartHomes(disks: Disks, m: AllocMeta, m': AllocMeta, i: nat, j: nat)
    requires LaidOut(disks, m) && InVolume(m, i) && LaidOut(disks, m') && InVolume(m', j)
    requires Apart(HoldingExtent(disks, m, i), HoldingExtent(disks, m', j))
    ensures Home(disks, m, i) != Home(disks, m', j)
  {
    var e, e' := HoldingExtent(disks, m, i), HoldingExtent(disks, m', j);
    HomeInExtent(disks, m, i);
    HomeInExtent(disks, m', j);
    if e.disk == e'.disk {
      var size := disks[e.disk].blockSize;
      if e.startBlock + e.numBlocks <= e'.startBlock {
        MulMonotone(e.startBlock + e.numBlocks, e'.startBlock, size);
      } else {
        MulMonotone(e'.startBlock + e'.numBlocks, e.startBlock, size);
      }
    }
  }

  /** Different bytes of one volume have different homes. */
  lemma HomeInjective(disks: Disks, m: AllocMeta, i: nat, j: nat)
    requires LaidOut(disks, m) && Separate(m.extents) && InVolume(m, i) && InVolume(m, j) && i != j
    ensures Home(disks, m, i) != Home(disks, m, j)
  {
    var e, e' := HoldingExtent(disks, m, i), HoldingExtent(disks, m, j);
    if e != e' {
      var a :| 0 <= a < |m.extents| && m.extents[a] == e;
      var b :| 0 <= b < |m.extents| && m.extents[b] == e';
      assert Apart(e, e') by {
        if a < b {
          assert Apart(m.extents[a], m.extents[b]);
        } else {
          assert Apart(m.extents[b], m.extents[a]);
        }
      }
      ApartHomes(disks, m, m, i, j);
    }
  }

  /** `len` bytes `b`, with an `a` at one place. */
  function Paint(len: nat, at: nat, a: byte, b: byte): (s: seq<byte>)
    ensures |s| == len && forall i :: 0 <= i < len ==> s[i] == if i == at then a else b
  {
    seq(len, i => if i == at then a else b)
  }

  function Other(b: byte): (r: byte)
    ensures r != b
  {
    if b == 0 then 1 else 0
  }

  /** The flat array with `data` written at `off`. */
  function Splice(v: seq<byte>, off: nat, data: seq<byte>): seq<byte>
    requires off + |data| <= |v|
  {
    v[..off] + data + v[off + |data|..]
  }

  /**
   A write has the effect of writing the flat array, whatever the data, if and only if the I/O is direct.
   */
  lemma WriteIsFlatIffDirect(disks: Disks, vol: Volume, m: AllocMeta, off: uint64, len: uint64, c: Contents)
    requires LaidOut(disks, m) && Describes(m, vol) && Aligned(m, off, len) && Separate(m.extents) && Fits(disks, c)
    ensures var plan := Plan(disks, vol, Some(m), off, len);
      && (plan.Ok? ==> ValidRequest(disks, plan.value) && Length(disks, plan.value) == len)
      && (Direct(disks, m, off, len) <==>
          forall data: seq<byte> :: |data| == len ==>
            View(disks, m, WriteOutcome(disks, c, plan, data)) == Splice(View(disks, m, c), off, data))
  {
    hide Plan, Home, HoldingExtent, FirstCovering, LaidOut, View, WriteAt, Start, Length, Direct;
    var plan := Plan(disks, vol, Some(m), off, len);
    if Direct(disks, m, off, len) {
      forall data: seq<byte> | |data| == len
        ensures plan.Ok? && ValidRequest(disks, plan.value) && Length(disks, plan.value) == len
        ensures View(disks, m, WriteOutcome(disks, c, plan, data)) == Splice(View(disks, m, c), off, data)
      {
        DirectWrite(disks, vol, m, off, data, c);
      }
      DirectPlan(disks, vol, m, off, len);
    } else if plan.Ok? {
      var p := IndirectMisses(disks, vol, m, off, len);
      var was := View(disks, m, c)[p];
      var data := Paint(len, p - off, Other(was), was);
      WriteAtByte(disks, c, plan.value, data, Home(disks, m, p));
      assert View(disks, m, WriteOutcome(disks, c, plan, data))[p] == was;
      assert Splice(View(disks, m, c), off, data)[p] == data[p - off];
    } else {
      var was := View(disks, m, c)[off];
      var data := Paint(len, 0, Other(was), was);
      assert View(disks, m, WriteOutcome(disks, c, plan, data))[off] == was;
      assert Splice(View(disks, m, c), off, data)[off] == data[0];
    }
  }

  lemma DirectWrite(disks: Disks, vol: Volume, m: AllocMeta, off: uint64, data: seq<byte>, c: Contents)
    requires |data| < TWO64
    requires LaidOut(disks, m) && Describes(m, vol) && Aligned(m, off, |data|) && Separate(m.extents) && Fits(disks, c)
    requires Direct(disks, m, off, |data|)
    ensures var plan := Plan(disks, vol, Some(m), off, |data|);
      && plan.Ok? && ValidRequest(disks, plan.value) && Length(disks, plan.value) == |data|
      && View(disks, m, WriteOutcome(disks, c, plan, data)) == Splice(View(disks, m, c), off, data)
  {
    hide Plan, Home, HoldingExtent, FirstCovering, LaidOut, View, WriteAt, Start, Length, Separate;
    DirectPlan(disks, vol, m, off, |data|);
    var plan := Plan(disks, vol, Some(m), off, |data|);
    var v, v' := View(disks, m, c), View(disks, m, WriteOutcome(disks, c, plan, data));
    forall i | 0 <= i < |v|
      ensures v'[i] == Splice(v, off, data)[i]
    {
      var h := Home(disks, m, i);
      WriteAtByte(disks, c, plan.value, data, h);
      if off <= i < off + |data| {
        assert h == Loc(plan.value.disk, Start(disks, plan.value) + (i - off));
      } else if h.disk == plan.value.disk && Start(disks, plan.value) <= h.pos < Start(disks, plan.value) + |data| {
        var k := h.pos - Start(disks, plan.value);
        assert Home(disks, m, off + k) == h;
        HomeInjective(disks, m, i, off + k);
      }
    }
  }

  /** The request covers a place on a disk. */
  predicate Touches(disks: Disks, r: Request, l: Loc)
    requires ValidRequest(disks, r)
  {
    l.disk == r.disk && Start(disks, r) <= l.pos < Start(disks, r) + Length(disks, r)
  }

  /**
   Any write that reaches a device, direct or not, leaves another volume as it was, whatever the data, if and only if
   its request covers no byte of that volume.
   */
  lemma OtherVolumeKeepsIffMissed(disks: Disks, vol: Volume, meta: Option<AllocMeta>, off: uint64, len: uint64, c: Contents,
                                  other: AllocMeta)
    requires Plan(disks, vol, meta, off, len).Ok?
    requires LaidOut(disks, other) && Fits(disks, c)
    ensures var plan := Plan(disks, vol, meta, off, len);
      && ValidRequest(disks, plan.value) && Length(disks, plan.value) == len
      && ((forall data: seq<byte> :: |data| == len ==> View(disks, other, WriteOutcome(disks, c, plan, data)) == View(disks, other, c))
          <==> forall i :: InVolume(other, i) ==> !Touches(disks, plan.value, Home(disks, other, i)))
  {
    hide Plan, Home, HoldingExtent, FirstCovering, LaidOut, View, WriteAt, Start, Length;
    PlanLength(disks, vol, meta, off, len);
    var plan := Plan(disks, vol, meta, off, len);
    PlanIsValid(disks, vol, meta, off, len);
    var r := plan.value;
    if i :| InVolume(other, i) && Touches(disks, r, Home(disks, other, i)) {
      MulNonneg(other.totalBlocks, other.blockSize);
      var h, was := Home(disks, other, i), View(disks, other, c)[i];
      var data := Paint(len, len, Other(was), Other(was));
      WriteAtByte(disks, c, r, data, h);
      assert View(disks, other, WriteOutcome(disks, c, plan, data))[i] != was;
    } else {
      forall data: seq<byte> | |data| == len
        ensures View(disks, other, WriteOutcome(disks, c, plan, data)) == View(disks, other, c)
      {
        MissedVolumeKeeps(disks, r, data, c, other);
      }
    }
  }

  lemma PlanIsValid(disks: Disks, vol: Volume, meta: Option<AllocMeta>, off: uint64, len: uint64)
    requires Plan(disks, vol, meta, off, len).Ok?
    ensures var r := Plan(disks, vol, meta, off, len).value; ValidRequest(disks, r) && Length(disks, r) == len
  {
    hide Plan;
    PlanLength(disks, vol, meta, off, len);
  }

  lemma MissedVolumeKeeps(disks: Disks, r: Request, data: seq<byte>, c: Contents, other: AllocMeta)
    requires LaidOut(disks, other) && Fits(disks, c) && ValidRequest(disks, r) && |data| == Length(disks, r)
    requires forall i :: InVolume(other, i) ==> !Touches(disks, r, Home(disks, other, i))
    ensures View(disks, other, WriteAt(disks, c, r, data)) == View(disks, other, c)
  {
    hide Home, LaidOut, View, WriteAt, Start, Length;
    var v, v' := View(disks, other, c), View(disks, other, WriteAt(disks, c, r, data));
    forall i | 0 <= i < |v|
      ensures v'[i] == v[i]
    {
      WriteAtByte(disks, c, r, data, Home(disks, other, i));
    }
  }

  /** A direct write never touches a volume whose extents are apart from this one's. */
  lemma OtherVolumesKeep(disks: Disks, vol: Volume, m: AllocMeta, off: uint64, data: seq<byte>, c: Contents, other: AllocMeta)
    requires |data| < TWO64
    requires LaidOut(disks, m) && Describes(m, vol) && Aligned(m, off, |data|) && Fits(disks, c)
    requires Direct(disks, m, off, |data|)
    requires LaidOut(disks, other)
    requires forall e <- m.extents, e' <- other.extents :: Apart(e, e')
    ensures var plan := Plan(disks, vol, Some(m), off, |data|);
      && plan.Ok? && ValidRequest(disks, plan.value) && Length(disks, plan.value) == |data|
      && View(disks, other, WriteOutcome(disks, c, plan, data)) == View(disks, other, c)
  {
    hide Plan, Home, HoldingExtent, FirstCovering, LaidOut, View, WriteAt, Start, Length;
    DirectPlan(disks, vol, m, off, |data|);
    var r := Plan(disks, vol, Some(m), off, |data|).value;
    forall i | InVolume(other, i)
      ensures !Touches(disks, r, Home(disks, other, i))
    {
      var h := Home(disks, other, i);
      if Touches(disks, r, h) {
        var k := h.pos - Start(disks, r);
        assert Home(disks, m, off + k) == h;
        ApartHomes(disks, m, other, off + k, i);
      }
    }
    MissedVolumeKeeps(disks, r, data, c, other);
  }

  /** An I/O that stays in one extent, on a disk whose block size divides the volume's, is direct. */
  lemma OneExtentIsDirect(disks: Disks, m: AllocMeta, off: uint64, len: uint64)
    requires LaidOut(disks, m) && Aligned(m, off, len)
    requires forall p :: off <= p < off + len ==> HoldingExtent(disks, m, p) == HoldingExtent(disks, m, off)
    requires var size := disks[HoldingExtent(disks, m, off).disk].blockSize;
      m.blockSize % size == 0 && len / size < TWO32
    ensures Direct(disks, m, off, len)
  {
    hide HoldingExtent, FirstCovering, LaidOut;
    var e := HoldingExtent(disks, m, off);
    var size := disks[e.disk].blockSize;
    var ratio := m.blockSize / size;
    HomeInExtent(disks, m, off);
    assert m.blockSize == ratio * size by { DivMod(m.blockSize, size); }
    assert len % size == 0 by {
      DivMod(len, m.blockSize);
      Multiple(len / m.blockSize, ratio, size);
    }
    assert Home(disks, m, off).pos % size == 0 by {
      var k := off / m.blockSize - e.volumeStartLba;
      DivMod(off, m.blockSize);
      Distribute(off / m.blockSize, e.volumeStartLba, m.blockSize);
      Multiple(k, ratio, size);
      Distribute(e.startBlock, k * ratio, size);
      MulDiv(e.startBlock + k * ratio, size);
    }
    forall p | off <= p < off + len
      ensures Home(disks, m, p) == Loc(e.disk, Home(disks, m, off).pos + (p - off))
    {
      assert HoldingExtent(disks, m, p) == e;
    }
  }

  lemma Multiple(n: int, ratio: int, size: int)
    requires size > 0
    ensures n * (ratio * size) == n * ratio * size
    ensures n * (ratio * size) % size == 0
  {
    MulDiv(n * ratio, size);
  }

  /** Crossing from one extent into another that is not next to it on disk is not direct. */
  lemma CrossingExtents(d: Uuid, id: Uuid)
    ensures var disks: Disks := map[d := Disk(512, 4, true)];
      var m := AllocMeta(id, id, [Extent(d, 0, 1, 0), Extent(d, 3, 1, 1)], 2, 512);
      LaidOut(disks, m) && Separate(m.extents) && Aligned(m, 0, 1024) && !Direct(disks, m, 0, 1024)
  {
    var disks: Disks := map[d := Disk(512, 4, true)];
    var m := AllocMeta(id, id, [Extent(d, 0, 1, 0), Extent(d, 3, 1, 1)], 2, 512);
    assert ExtentBytes(disks, m.extents[0]) == 512 && ExtentBytes(disks, m.extents[1]) == 512;
    assert Covers(disks, m.extents[0], 512, 0) && !Covers(disks, m.extents[0], 512, 1) && Covers(disks, m.extents[1], 512, 1);
    assert Home(disks, m, 0) == Loc(d, 0);
    assert HoldingExtent(disks, m, 512) == m.extents[1];
    assert Home(disks, m, 512) == Loc(d, 1536);
  }

  /** There the request runs on into whatever lies behind the first extent: here a block of another volume. */
  lemma CrossingReachesNeighbour(vol: Volume, d: Uuid)
    requires vol.blockSize == 512 && vol.numBlocks == 2 && vol.sizeBytes == 1024
    ensures var disks: Disks := map[d := Disk(512, 4, true)];
      var m := AllocMeta(vol.id, vol.group, [Extent(d, 0, 1, 0), Extent(d, 3, 1, 1)], 2, 512);
      var other := AllocMeta(vol.id, vol.group, [Extent(d, 1, 1, 0)], 1, 512);
      && LaidOut(disks, m) && LaidOut(disks, other) && InVolume(other, 0)
      && (forall e <- m.extents, e' <- other.extents :: Apart(e, e'))
      && Plan(disks, vol, Some(m), 0, 1024) == Ok(Request(d, 0, 2))
      && Touches(disks, Request(d, 0, 2), Home(disks, other, 0))
  {
    var disks: Disks := map[d := Disk(512, 4, true)];
    var m := AllocMeta(vol.id, vol.group, [Extent(d, 0, 1, 0), Extent(d, 3, 1, 1)], 2, 512);
    var other := AllocMeta(vol.id, vol.group, [Extent(d, 1, 1, 0)], 1, 512);
    CrossingExtents(d, vol.id);
    assert ExtentBytes(disks, m.extents[0]) == 512 && ExtentBytes(disks, other.extents[0]) == 512;
    assert Covers(disks, m.extents[0], 512, 0) && Covers(disks, other.extents[0], 512, 0);
    PlanAtHome(disks, vol, m, 0, 1024);
    assert Home(disks, m, 0) == Loc(d, 0) && Home(disks, other, 0) == Loc(d, 512);
  }

  /** On a disk with larger blocks than the volume's, an I/O from the middle of a disk block is not direct. */
  lemma CoarseDiskBlocks(d: Uuid, id: Uuid)
    ensures var disks: Disks := map[d := Disk(4096, 2, true)];
      var m := AllocMeta(id, id, [Extent(d, 0, 2, 0)], 16, 512);
      LaidOut(disks, m) && Separate(m.extents) && Aligned(m, 512, 4096) && !Direct(disks, m, 512, 4096)
  {
    var disks: Disks := map[d := Disk(4096, 2, true)];
    var m := AllocMeta(id, id, [Extent(d, 0, 2, 0)], 16, 512);
    assert ExtentBytes(disks, m.extents[0]) == 8192;
    assert forall lba: uint64 :: lba < 16 ==> Covers(disks, m.extents[0], 512, lba);
    assert Home(disks, m, 512) == Loc(d, 512);
  }

  // ---------------------------------------------------------------- where the range check gives way

  /** An I/O outside its volume that reaches the device, on a sound layout. */
  ghost predicate Escapes(disks: Disks, vol: Volume, m: AllocMeta, off: uint64, len: uint64) {
    && UsualDisks(disks) && LaidOut(disks, m) && Separate(m.extents) && Describes(m, vol)
    && Plan(disks, vol, Some(m), off, len).Ok?
    && off + len > vol.sizeBytes
  }

  const HALF: int := 0x8000_0000_0000          // disk blocks in half of a 2^64-byte volume
  const LONGEST_IO: int := 0xffff_ffff * 0x1_0000

  /** A volume of any size in two halves on two disks of the largest blocks, the second with room to spare. */
  function TwoHalves(d: Uuid, e: Uuid): Disks {
    map[d := Disk(0x1_0000, HALF, true), e := Disk(0x1_0000, HALF + TWO32, true)]
  }

  function HalvesMeta(vol: Volume, d: Uuid, e: Uuid): AllocMeta
    requires vol.blockSize == 512 || vol.blockSize == 4096
  {
    AllocMeta(vol.id, vol.group, [Extent(d, 0, HALF, 0), Extent(e, 0, HALF, 0x8000_0000_0000_0000 / vol.blockSize)],
              vol.numBlocks, vol.blockSize)
  }

  predicate Large(vol: Volume) {
    && (vol.blockSize == 512 || vol.blockSize == 4096)
    && vol.sizeBytes == vol.numBlocks * vol.blockSize
    && vol.sizeBytes >= ESCAPE_SIZE + vol.blockSize
  }

  lemma HalvesCover(vol: Volume, d: Uuid, e: Uuid, lba: uint64)
    requires Large(vol) && d != e && lba < vol.numBlocks
    ensures var m := HalvesMeta(vol, d, e);
      FirstCovering(TwoHalves(d, e), m.extents, vol.blockSize, lba) ==
        if lba < 0x8000_0000_0000_0000 / vol.blockSize then 0 else 1
  {
    var disks, m := TwoHalves(d, e), HalvesMeta(vol, d, e);
    assert ExtentBytes(disks, m.extents[0]) == ExtentBytes(disks, m.extents[1]) == 0x8000_0000_0000_0000;
    if vol.blockSize == 512 {
      assert lba < 0x80_0000_0000_0000;
    } else {
      assert lba < 0x10_0000_0000_0000;
    }
    FirstOfTwo(disks, m.extents, vol.blockSize, lba);
  }

  lemma FirstOfTwo(disks: Disks, extents: seq<Extent>, blockSize: uint32, lba: uint64)
    requires |extents| == 2 && blockSize > 0
    ensures FirstCovering(disks, extents, blockSize, lba) ==
      if Covers(disks, extents[0], blockSize, lba) then 0 else if Covers(disks, extents[1], blockSize, lba) then 1 else 2
  {
  }

  lemma HalvesAreSound(vol: Volume, d: Uuid, e: Uuid)
    requires Large(vol) && d != e
    ensures UsualDisks(TwoHalves(d, e)) && LaidOut(TwoHalves(d, e), HalvesMeta(vol, d, e))
    ensures Separate(HalvesMeta(vol, d, e).extents) && Describes(HalvesMeta(vol, d, e), vol)
  {
    hide FirstCovering, Covers;
    forall lba: uint64 | lba < vol.numBlocks
      ensures FirstCovering(TwoHalves(d, e), HalvesMeta(vol, d, e).extents, vol.blockSize, lba) < 2
    {
      HalvesCover(vol, d, e, lba);
    }
  }

  /** On a volume of that size the longest possible I/O at its last block passes every check. */
  lemma WrapAroundReachesDevice(vol: Volume, d: Uuid, e: Uuid)
    requires Large(vol) && d != e
    ensures Escapes(TwoHalves(d, e), vol, HalvesMeta(vol, d, e), vol.sizeBytes - vol.blockSize, LONGEST_IO)
  {
    hide LaidOut, Map, Separate, UsualDisks, DeviceRequest;
    var disks := TwoHalves(d, e);
    HalvesAreSound(vol, d, e);
    LastBlockMap(vol, d, e);
    DeviceRequestAt(disks, e, LastDiskBlock(vol), LONGEST_IO);
  }

  function LastDiskBlock(vol: Volume): uint64
    requires Large(vol)
  {
    (vol.sizeBytes - vol.blockSize - 0x8000_0000_0000_0000) / 0x1_0000
  }

  lemma LastBlockMap(vol: Volume, d: Uuid, e: Uuid)
    requires Large(vol) && d != e
    ensures var off := vol.sizeBytes - vol.blockSize;
      && 0 <= off / vol.blockSize < TWO64 && off % vol.blockSize == 0
      && Map(TwoHalves(d, e), vol, Some(HalvesMeta(vol, d, e)), off / vol.blockSize) == Ok(Mapping(e, LastDiskBlock(vol), 0x1_0000))
  {
    hide FirstCovering, Covers, Place;
    var lba: uint64 := vol.numBlocks - 1;
    Distribute(vol.numBlocks, 1, vol.blockSize);
    MulDiv(lba, vol.blockSize);
    HalvesCover(vol, d, e, lba);
    LastBlockPlace(vol, d, e);
  }

  lemma LastBlockPlace(vol: Volume, d: Uuid, e: Uuid)
    requires Large(vol) && d != e
    ensures var disks, m := TwoHalves(d, e), HalvesMeta(vol, d, e);
      var lba := vol.numBlocks - 1;
      && 0x8000_0000_0000_0000 / vol.blockSize <= lba
      && Covers(disks, m.extents[1], vol.blockSize, lba)
      && Place(disks, m.extents[1], vol.blockSize, lba) == Mapping(e, LastDiskBlock(vol), 0x1_0000)
  {
    var disks, m := TwoHalves(d, e), HalvesMeta(vol, d, e);
    var lba, start := vol.numBlocks - 1, 0x8000_0000_0000_0000 / vol.blockSize;
    SecondHalf(vol);
    assert ExtentBytes(disks, m.extents[1]) == 0x8000_0000_0000_0000;
    assert (lba - start) * vol.blockSize == vol.sizeBytes - vol.blockSize - 0x8000_0000_0000_0000;
  }

  lemma SecondHalf(vol: Volume)
    requires Large(vol)
    ensures var lba, start := vol.numBlocks - 1, 0x8000_0000_0000_0000 / vol.blockSize;
      && start <= lba < start + start < TWO64
      && (lba - start) * vol.blockSize == vol.sizeBytes - vol.blockSize - 0x8000_0000_0000_0000
  {
    if vol.blockSize == 512 {
    } else {
    }
  }

  /** Some sound layout lets an out-of-range I/O through if and only if the volume is that large. */
  lemma EscapeIffLarge(vol: Volume)
    requires vol.blockSize == 512 || vol.blockSize == 4096
    requires vol.sizeBytes == vol.numBlocks * vol.blockSize
    ensures (exists disks: Disks, m: AllocMeta, off: uint64, len: uint64 :: Escapes(disks, vol, m, off, len))
        <==> vol.sizeBytes >= ESCAPE_SIZE + vol.blockSize
  {
    hide Plan, LaidOut;
    if vol.sizeBytes >= ESCAPE_SIZE + vol.blockSize {
      var e: Uuid := [1, 0, 0, 0, 0, 0, 0, 0, 0, 0, 0, 0, 0, 0, 0, 0];
      assert NULL_UUID[0] != e[0];
      WrapAroundReachesDevice(vol, NULL_UUID, e);
    } else {
      forall disks: Disks, m: AllocMeta, off: uint64, len: uint64
        ensures !Escapes(disks, vol, m, off, len)
      {
        if UsualDisks(disks) && Plan(disks, vol, Some(m), off, len).Ok? {
          NoOutOfRangeRequest(disks, vol, Some(m), off, len);
        }
      }
    }
  }

  // ---------------------------------------------------------------- the engine

  /** The checks and conversions of an I/O, in the order the code makes them, up to the request the device gets. */
  method BuildRequest(disks: Disks, vol: Volume, meta: Option<AllocMeta>, off: uint64, len: uint64)
    returns (r: Result<Request>)
    ensures r == Plan(disks, vol, meta, off, len)
  {
    hide IsFirst, Unmapped;
    if vol.blockSize == 0 || off % vol.blockSize != 0 || len % vol.blockSize != 0 || len == 0 ||
       Wrap64(off + len) > vol.sizeBytes
    {
      return Err(InvalidParamAlignment);
    }
    DivBounds(off, vol.blockSize);
    var logicalBlock: uint64 := off / vol.blockSize;
    var mapped := MapLbaToPhysical(disks, vol, meta, logicalBlock);
    if mapped.Err? {
      return Err(mapped.error);
    }
    var m := mapped.value;
    if len % m.blockSize != 0 {
      return Err(InvalidParamAlignment);
    }
    if !disks[m.disk].hasDescriptor {
      return Err(ResourceUnavailable);
    }
    // The request takes a byte offset, turns it back into blocks, and counts blocks in 32 bits.
    var at := Wrap64(m.block * m.blockSize);
    if at % m.blockSize != 0 {
      return Err(OutOfMemory);
    }
    DivBounds(at, m.blockSize);
    var offsetBlocks: uint64 := at / m.blockSize;
    var numBlocks := Wrap32(len / m.blockSize);
    if numBlocks == 0 {
      return Err(InvalidParam);
    }
    MulMonotone(m.blockSize, TWO32, numBlocks);
    MulNonneg(numBlocks, m.blockSize);
    var ioSize := Wrap64(numBlocks * m.blockSize);
    if len != ioSize {
      return Err(InvalidParam);
    }
    // The device refuses a range beyond its last block.
    if offsetBlocks + numBlocks > disks[m.disk].numBlocks {
      return Err(Io);
    }
    return Ok(Request(m.disk, offsetBlocks, numBlocks));
  }

  /** The disks of a node and what they hold. */
  class BlockDevices {
    const disks: Disks
    var contents: Contents

    ghost predicate Valid()
      reads this
    {
      Fits(disks, contents)
    }

    constructor (disks: Disks, contents: Contents)
      requires Fits(disks, contents)
      ensures Valid() && this.disks == disks && this.contents == contents
    {
      this.disks, this.contents := disks, contents;
    }

    /**
     `_xsan_volume_submit_single_io_attempt` down to the completed device operation. A write takes its data from
     the caller's buffer, a read leaves the data there; both go through a bounce buffer.
     */
    method SubmitSingleIo(vol: Volume, meta: Option<AllocMeta>, off: uint64, len: uint64, buffer: array<byte>, isRead: bool)
      returns (r: Result<()>)
      requires Valid() && buffer.Length == len
      modifies this`contents, buffer
      ensures Valid()
      ensures var plan := Plan(disks, vol, meta, off, len);
        && (plan.Ok? ==> ValidRequest(disks, plan.value) && Length(disks, plan.value) == len)
        && (r.Ok? <==> plan.Ok?)
        && (r.Err? ==> r.error == plan.error)
        && contents == (if isRead then old(contents) else WriteOutcome(disks, old(contents), plan, old(buffer[..])))
        && buffer[..] == (if isRead && plan.Ok? then ReadAt(disks, old(contents), plan.value) else old(buffer[..]))
      ensures Malformed(vol, off, len) ==> r == Err(InvalidParamAlignment)
      ensures r.Err? ==> contents == old(contents) && buffer[..] == old(buffer[..])
    {
      hide Plan, Malformed;
      PlanGuards(disks, vol, meta, off, len);
      var plan := BuildRequest(disks, vol, meta, off, len);
      if plan.Err? {
        return Err(plan.error);
      }
      PlanLength(disks, vol, meta, off, len);
      var d := plan.value.disk;
      RequestOnDisk(disks, plan.value);
      var start := Start(disks, plan.value);
      if isRead {
        var bounce := contents[d][start..start + len];
        forall i | 0 <= i < len {
          buffer[i] := bounce[i];
        }
        assert buffer[..] == bounce;
      } else {
        var bounce := buffer[..];
        var s := contents[d];
        contents := contents[d := s[..start] + bounce + s[start + len..]];
      }
      return Ok(());
    }
  }
}
