/**
 A write on its way to a replica: built by `xsan_volume_write_async`, framed by the peer's connection, taken apart by
 `xsan_volume_manager_handle_replica_write_req`, and carried out on the replica's disks.
 */
module ReplicaWrite {
  import opened MachineInts
  import opened Outcomes
  import opened Arith
  import opened Endian
  import opened Protocol
  import opened Framer
  import opened Storage
  import opened VolumeMap
  import opened VolumeIo

  /** Size of the packed request structure: volume id, block address, block count. */
  const REQUEST_SIZE: nat := 28

  /** The structure's memory image on a little-endian node; it travels in host byte order. */
  function RequestBytes(id: Uuid, lba: uint64, numBlocks: uint32): (s: seq<byte>)
    ensures |s| == REQUEST_SIZE
  {
    id + Little(lba, 8) + Little(numBlocks, 4)
  }

  /** A write request, apart from how it travels. */
  datatype WriteRequest = WriteRequest(id: Uuid, lba: uint64, numBlocks: uint32, data: seq<byte>)

  /** How it travels: the structure, then the data. */
  function Image(q: WriteRequest): seq<byte> {
    RequestBytes(q.id, q.lba, q.numBlocks) + q.data
  }

  /** A payload that is long enough is the image of one request, and only of that one. */
  function RequestOf(payload: seq<byte>): (q: WriteRequest)
    requires |payload| >= REQUEST_SIZE
    ensures Image(q) == payload
  {
    Powers();
    LittleOfFromLittle(payload[16..24]);
    LittleOfFromLittle(payload[24..28]);
    var q := WriteRequest(payload[..16], FromLittle(payload[16..24]), FromLittle(payload[24..28]), payload[REQUEST_SIZE..]);
    assert payload == payload[..16] + payload[16..24] + payload[24..28] + payload[28..];
    q
  }

  lemma ImageInjective(q: WriteRequest)
    ensures |Image(q)| >= REQUEST_SIZE && RequestOf(Image(q)) == q
  {
    RequestFields(q.id, q.lba, q.numBlocks, q.data);
  }

  lemma RequestFields(id: Uuid, lba: uint64, numBlocks: uint32, data: seq<byte>)
    ensures var p := RequestBytes(id, lba, numBlocks) + data;
      && p[..16] == id && FromLittle(p[16..24]) == lba && FromLittle(p[24..28]) == numBlocks && p[28..] == data
  {
    hide Little, FromLittle;
    var p := RequestBytes(id, lba, numBlocks) + data;
    Powers();
    assert p[16..24] == Little(lba, 8);
    assert p[24..28] == Little(numBlocks, 4);
    FromLittleOfLittle(lba, 8);
    FromLittleOfLittle(numBlocks, 4);
  }

  // ---------------------------------------------------------------- sending side

  /**
   The message for one remote replica. The block count is cut to 32 bits, and so is the data length on its way into
   the message constructor.
   */
  function Outgoing(id: Uuid, blockSize: uint32, off: uint64, data: seq<byte>, tid: uint64): Option<Message>
    requires blockSize > 0 && |data| < TWO64
  {
    DivBounds(off, blockSize);
    var request := RequestBytes(id, off / blockSize, Wrap32(|data| / blockSize));
    WrapLength(|data|);
    var sent := data[..Wrap32(|data|)];
    if REQUEST_SIZE + |sent| > MAX_PAYLOAD then None
    else Some(Sealed(REPLICA_WRITE_BLOCK_REQ, tid, request + sent))
  }

  lemma WrapLength(n: nat)
    ensures Wrap32(n) <= n
  {
    DivMod(n, TWO32);
    DivBounds(n, TWO32);
  }

  method BuildReplicaWrite(id: Uuid, blockSize: uint32, off: uint64, data: seq<byte>, tid: uint64, memory: bool)
    returns (r: Option<Message>)
    requires blockSize > 0 && |data| < TWO64
    ensures r == if memory then Outgoing(id, blockSize, off, data, tid) else None
  {
    DivBounds(off, blockSize);
    var lba: uint64 := off / blockSize;
    var numBlocks := Wrap32(|data| / blockSize);
    var dataLen := Wrap32(|data|);
    WrapLength(|data|);
    r := MessageCreateWithData(REPLICA_WRITE_BLOCK_REQ, tid, RequestBytes(id, lba, numBlocks), data[..dataLen], memory);
  }

  // ---------------------------------------------------------------- receiving side

  /** What the handler passes on to the replica's own submit path. */
  datatype LocalWrite = LocalWrite(id: Uuid, off: uint64, data: seq<byte>)

  /** What a request is good for on this node. */
  function Judged(volumes: map<Uuid, Volume>, q: WriteRequest): Result<LocalWrite> {
    if q.id !in volumes then Err(NotFound)
    else
      var size := volumes[q.id].blockSize;
      if size == 0 || q.numBlocks == 0 then Err(InvalidParam)
      else if |q.data| != q.numBlocks * size then Err(InvalidParamSize)
      else Ok(LocalWrite(q.id, Wrap64(q.lba * size), q.data))
  }

  function Accepted(volumes: map<Uuid, Volume>, msg: Message): Result<LocalWrite>
    requires |msg.payload| == msg.header.payloadLength
  {
    if msg.header.kind != REPLICA_WRITE_BLOCK_REQ then Err(InvalidMsgType)
    else if |msg.payload| < REQUEST_SIZE then Err(ProtocolGeneric)
    else Judged(volumes, RequestOf(msg.payload))
  }

  /**
   `xsan_volume_manager_handle_replica_write_req` up to the local submit: it judges the one request whose image the
   payload is, and refuses a message of another kind, a payload that is no request's image, and a write it has no
   memory to track.
   */
  method HandleReplicaWrite(volumes: map<Uuid, Volume>, msg: Message, memory: bool) returns (r: Result<LocalWrite>)
    requires |msg.payload| == msg.header.payloadLength
    ensures msg.header.kind != REPLICA_WRITE_BLOCK_REQ ==> r == Err(InvalidMsgType)
    ensures forall q :: msg.header.kind == REPLICA_WRITE_BLOCK_REQ && msg.payload == Image(q) ==>
      && (q.id !in volumes ==> r == Err(NotFound))
      && (q.id in volumes && (volumes[q.id].blockSize == 0 || q.numBlocks == 0) ==> r == Err(InvalidParam))
      && (q.id in volumes && volumes[q.id].blockSize > 0 && q.numBlocks > 0 ==>
            r == if |q.data| != q.numBlocks * volumes[q.id].blockSize then Err(InvalidParamSize)
                 else if !memory then Err(OutOfMemory)
                 else Ok(LocalWrite(q.id, Wrap64(q.lba * volumes[q.id].blockSize), q.data)))
    ensures memory ==> r == Accepted(volumes, msg)
    ensures msg.header.kind == REPLICA_WRITE_BLOCK_REQ && (forall q :: msg.payload != Image(q)) ==> r == Err(ProtocolGeneric)
  {
    hide FromLittle, Little;
    if msg.header.kind != REPLICA_WRITE_BLOCK_REQ {
      return Err(InvalidMsgType);
    }
    if msg.header.payloadLength < REQUEST_SIZE {
      return Err(ProtocolGeneric);
    }
    Powers();
    LittleOfFromLittle(msg.payload[16..24]);
    LittleOfFromLittle(msg.payload[24..28]);
    ghost var only := RequestOf(msg.payload);
    OnlyRequest(msg.payload);
    var id: Uuid := msg.payload[..16];
    var lba: uint64 := FromLittle(msg.payload[16..24]);
    var numBlocks: uint32 := FromLittle(msg.payload[24..28]);
    var actualLen: uint32 := msg.header.payloadLength - REQUEST_SIZE;
    if id !in volumes {
      return Err(NotFound);
    }
    var size := volumes[id].blockSize;
    if size == 0 || numBlocks == 0 {
      return Err(InvalidParam);
    }
    MulMonotone(size, TWO32, numBlocks);
    MulNonneg(numBlocks, size);
    var expectedLen: uint64 := numBlocks * size;
    if actualLen != expectedLen {
      return Err(InvalidParamSize);
    }
    if !memory {
      return Err(OutOfMemory);
    }
    return Ok(LocalWrite(id, Wrap64(lba * size), msg.payload[REQUEST_SIZE..]));
  }

  lemma OnlyRequest(payload: seq<byte>)
    requires |payload| >= REQUEST_SIZE
    ensures payload == Image(RequestOf(payload)) && forall q :: payload == Image(q) ==> q == RequestOf(payload)
  {
    forall q | payload == Image(q)
      ensures q == RequestOf(payload)
    {
      ImageInjective(q);
    }
  }

  /** A request that is accepted is written at the place it names exactly when that place is below 2^64. */
  lemma OffsetIsNamedIffBelow(volumes: map<Uuid, Volume>, q: WriteRequest)
    requires Judged(volumes, q).Ok?
    ensures var w := Judged(volumes, q).value; var place := q.lba * volumes[q.id].blockSize;
      w.id == q.id && w.data == q.data && (w.off == place <==> place < TWO64)
  {
    MulNonneg(q.lba, volumes[q.id].blockSize);
  }

  /** Block 2^55 of a volume with 512-byte blocks is taken for its first byte. */
  lemma FarBlockIsTakenForFirst(volumes: map<Uuid, Volume>, id: Uuid, data: seq<byte>)
    requires id in volumes && volumes[id].blockSize == 512 && |data| == 512
    ensures Judged(volumes, WriteRequest(id, 0x80_0000_0000_0000, 1, data)) == Ok(LocalWrite(id, 0, data))
  {
  }

  // ---------------------------------------------------------------- the whole way

  /** Bytes the sender writes to the socket; nothing when no message could be built. */
  function OnTheWire(m: Option<Message>): seq<byte> {
    if m.Some? then Encode(m.value) else []
  }

  /**
   For every aligned write, sent on a connection between messages: the replica submits the same volume, offset and
   data if and only if request and data together fit the largest receive buffer. It then submits it exactly once.
   */
  lemma ReplicaWriteArrivesIffItFits(volumes: map<Uuid, Volume>, id: Uuid, off: uint64, data: seq<byte>, tid: uint64,
                                     before: seq<byte>, behind: seq<byte>)
    requires id in volumes && volumes[id].blockSize > 0
    requires off % volumes[id].blockSize == 0
    requires 0 < |data| < TWO64 && |data| % volumes[id].blockSize == 0
    requires !Parse(before).closed && Parse(before).rest == []
    ensures var m := Outgoing(id, volumes[id].blockSize, off, data, tid);
      if REQUEST_SIZE + |data| <= LARGEST_BUFFER then
        && m.Some? && WellFramed(m.value) && Carries(m.value.header, REPLICA_WRITE_BLOCK_REQ, tid, REQUEST_SIZE + |data|)
        && Parse(before + OnTheWire(m) + behind).messages == Parse(before).messages + [m.value] + Parse(behind).messages
        && Accepted(volumes, m.value) == Ok(LocalWrite(id, off, data))
      else
        forall x <- Parse(OnTheWire(m)).messages :: WellFramed(x) && Accepted(volumes, x) != Ok(LocalWrite(id, off, data))
  {
    hide Parse, Accepted, Outgoing, OnTheWire, WellFramed;
    var size := volumes[id].blockSize;
    var m := Outgoing(id, size, off, data, tid);
    if m.Some? {
      SealedFraming(m.value, id, size, off, data, tid);
    }
    if REQUEST_SIZE + |data| <= LARGEST_BUFFER {
      HandlerInverts(volumes, id, off, data, tid);
      OnWire(m);
      ParseBetween(before, m.value, behind);
    } else {
      LongWriteIsNotTaken(volumes, id, off, data, tid);
    }
  }

  lemma OnWire(m: Option<Message>)
    ensures m.Some? ==> OnTheWire(m) == Encode(m.value)
    ensures m.None? ==> Parse(OnTheWire(m)).messages == []
  {
  }

  /** What the wire carries is delivered whole or not at all. */
  lemma DeliveredOrNot(m: Option<Message>)
    requires m.Some? ==> WellFramed(m.value)
    ensures forall x <- Parse(OnTheWire(m)).messages :: m == Some(x)
  {
    hide Parse, OnTheWire, WellFramed;
    OnWire(m);
    if m.Some? {
      DeliveredExactlyWhenItFits(m.value);
    }
  }

  lemma LongWriteIsNotTaken(volumes: map<Uuid, Volume>, id: Uuid, off: uint64, data: seq<byte>, tid: uint64)
    requires id in volumes && volumes[id].blockSize > 0
    requires off % volumes[id].blockSize == 0
    requires 0 < |data| < TWO64 && |data| % volumes[id].blockSize == 0
    requires REQUEST_SIZE + |data| > LARGEST_BUFFER
    ensures forall x <- Parse(OnTheWire(Outgoing(id, volumes[id].blockSize, off, data, tid))).messages ::
      WellFramed(x) && Accepted(volumes, x) != Ok(LocalWrite(id, off, data))
  {
    hide Parse, Accepted, Outgoing, OnTheWire, WellFramed;
    var m := Outgoing(id, volumes[id].blockSize, off, data, tid);
    OnWire(m);
    if m.Some? {
      SealedFraming(m.value, id, volumes[id].blockSize, off, data, tid);
      DeliveredExactlyWhenItFits(m.value);
      HandlerVerdict(volumes, id, off, data, tid);
    }
  }

  lemma SealedFraming(m: Message, id: Uuid, blockSize: uint32, off: uint64, data: seq<byte>, tid: uint64)
    requires blockSize > 0 && |data| < TWO64 && Outgoing(id, blockSize, off, data, tid) == Some(m)
    ensures WellFramed(m) && |m.payload| == REQUEST_SIZE + Wrap32(|data|)
    ensures Carries(m.header, REPLICA_WRITE_BLOCK_REQ, tid, REQUEST_SIZE + Wrap32(|data|))
  {
    WrapLength(|data|);
    DivBounds(off, blockSize);
    SealedVerifies(REPLICA_WRITE_BLOCK_REQ, tid, m.payload);
  }

  /** What the handler makes of any aligned write, however long: the 32-bit cuts of length and block count decide. */
  lemma HandlerVerdict(volumes: map<Uuid, Volume>, id: Uuid, off: uint64, data: seq<byte>, tid: uint64)
    requires id in volumes && volumes[id].blockSize > 0
    requires off % volumes[id].blockSize == 0
    requires 0 < |data| < TWO64 && |data| % volumes[id].blockSize == 0
    requires Outgoing(id, volumes[id].blockSize, off, data, tid).Some?
    ensures var m := Outgoing(id, volumes[id].blockSize, off, data, tid).value;
      var size := volumes[id].blockSize;
      var n: int := Wrap32(|data| / size);
      && Wrap32(|data|) <= |data|
      && |m.payload| == m.header.payloadLength
      && Accepted(volumes, m) == if n == 0 then Err(InvalidParam)
                                 else if Wrap32(|data|) != n * size then Err(InvalidParamSize)
                                 else Ok(LocalWrite(id, off, data[..Wrap32(|data|)]))
  {
    hide RequestBytes, RequestOf, Wrap32;
    var size := volumes[id].blockSize;
    DivMod(off, size);
    DivBounds(off, size);
    WrapLength(|data|);
    var m := Outgoing(id, size, off, data, tid).value;
    SealedFraming(m, id, size, off, data, tid);
    var q := WriteRequest(id, off / size, Wrap32(|data| / size), data[..Wrap32(|data|)]);
    assert m.payload == Image(q);
    ImageInjective(q);
  }

  /** Below 2^32 blocks an accepted write is the whole write. */
  lemma AcceptedIsWhole(volumes: map<Uuid, Volume>, id: Uuid, off: uint64, data: seq<byte>, tid: uint64)
    requires id in volumes && volumes[id].blockSize > 0
    requires off % volumes[id].blockSize == 0
    requires 0 < |data| < TWO64 && |data| % volumes[id].blockSize == 0 && |data| / volumes[id].blockSize < TWO32
    requires Outgoing(id, volumes[id].blockSize, off, data, tid).Some?
    ensures var m := Outgoing(id, volumes[id].blockSize, off, data, tid).value;
      && |m.payload| == m.header.payloadLength
      && (Accepted(volumes, m).Ok? ==> Accepted(volumes, m) == Ok(LocalWrite(id, off, data)))
  {
    hide Outgoing, Accepted, Wrap32;
    HandlerVerdict(volumes, id, off, data, tid);
    DivMod(|data|, volumes[id].blockSize);
    DivBounds(|data|, volumes[id].blockSize);
    assert data[..|data|] == data;
  }

  /** From 2^32 blocks on that can fail: 2^32 + 1 blocks are accepted as a write of the first block alone. */
  lemma LongWriteIsCut(volumes: map<Uuid, Volume>, id: Uuid, off: uint64, data: seq<byte>, tid: uint64)
    requires id in volumes && 0 < volumes[id].blockSize <= 0x1_0000 && off % volumes[id].blockSize == 0
    requires |data| == (TWO32 + 1) * volumes[id].blockSize
    ensures |data| < TWO64 && volumes[id].blockSize <= |data|
    ensures var m := Outgoing(id, volumes[id].blockSize, off, data, tid);
      && m.Some? && |m.value.payload| == m.value.header.payloadLength
      && Accepted(volumes, m.value) == Ok(LocalWrite(id, off, data[..volumes[id].blockSize]))
  {
    hide Accepted;
    var size := volumes[id].blockSize;
    MulDiv(TWO32 + 1, size);
    CutLength(size);
    HandlerVerdict(volumes, id, off, data, tid);
  }

  lemma CutLength(size: uint32)
    requires 0 < size <= 0x1_0000
    ensures Wrap32((TWO32 + 1) * size) == size && Wrap32(TWO32 + 1) == 1
  {
    assert (TWO32 + 1) * size == size * TWO32 + size;
    DivUnique(size * TWO32 + size, TWO32, size);
  }

  /** The handler takes apart what the sender put together. */
  lemma HandlerInverts(volumes: map<Uuid, Volume>, id: Uuid, off: uint64, data: seq<byte>, tid: uint64)
    requires id in volumes && volumes[id].blockSize > 0
    requires off % volumes[id].blockSize == 0
    requires 0 < |data| && |data| % volumes[id].blockSize == 0
    requires REQUEST_SIZE + |data| <= LARGEST_BUFFER
    ensures var m := Outgoing(id, volumes[id].blockSize, off, data, tid);
      m.Some? && |m.value.payload| == m.value.header.payloadLength && Accepted(volumes, m.value) == Ok(LocalWrite(id, off, data))
  {
    hide Accepted;
    var size := volumes[id].blockSize;
    DivMod(|data|, size);
    DivBounds(|data|, size);
    assert |data| / size > 0;
    assert data[..Wrap32(|data|)] == data;
    HandlerVerdict(volumes, id, off, data, tid);
  }

  /**
   End to end: on a replica whose copy of the volume is laid out so that the I/O is direct, the write that was sent
   has the effect of writing the sender's data at the sender's offset in the replica's flat view.
   */
  lemma ReplicaWriteIsFlat(volumes: map<Uuid, Volume>, disks: Disks, m: AllocMeta, c: Contents,
                           id: Uuid, off: uint64, data: seq<byte>, tid: uint64)
    requires id in volumes && Describes(m, volumes[id])
    requires LaidOut(disks, m) && Separate(m.extents) && Fits(disks, c)
    requires REQUEST_SIZE + |data| <= LARGEST_BUFFER && |data| < TWO64
    requires Aligned(m, off, |data|) && Direct(disks, m, off, |data|)
    ensures var parsed := Parse(OnTheWire(Outgoing(id, volumes[id].blockSize, off, data, tid)));
      && |parsed.messages| == 1 && WellFramed(parsed.messages[0])
      && var w := Accepted(volumes, parsed.messages[0]);
      && w.Ok? && w.value.id == id
      && |w.value.data| < TWO64
      && var plan := Plan(disks, volumes[id], Some(m), w.value.off, |w.value.data|);
      && plan.Ok? && ValidRequest(disks, plan.value) && Length(disks, plan.value) == |w.value.data|
      && View(disks, m, WriteOutcome(disks, c, plan, w.value.data)) == Splice(View(disks, m, c), off, data)
  {
    hide Plan, Direct, LaidOut, Accepted, Outgoing, OnTheWire, WellFramed, View, Splice, WriteOutcome, Separate, Fits, ValidRequest, Length, Parse;
    ArrivesAlone(volumes, id, off, data, tid);
    DirectWrite(disks, volumes[id], m, off, data, c);
  }

  lemma ArrivesAlone(volumes: map<Uuid, Volume>, id: Uuid, off: uint64, data: seq<byte>, tid: uint64)
    requires id in volumes && volumes[id].blockSize > 0
    requires off % volumes[id].blockSize == 0
    requires 0 < |data| < TWO64 && |data| % volumes[id].blockSize == 0 && REQUEST_SIZE + |data| <= LARGEST_BUFFER
    ensures var parsed := Parse(OnTheWire(Outgoing(id, volumes[id].blockSize, off, data, tid)));
      && |parsed.messages| == 1 && WellFramed(parsed.messages[0])
      && Accepted(volumes, parsed.messages[0]) == Ok(LocalWrite(id, off, data))
  {
    hide Parse, Accepted, Outgoing, OnTheWire, WellFramed;
    ParseNothing();
    ReplicaWriteArrivesIffItFits(volumes, id, off, data, tid, [], []);
    var o := Outgoing(id, volumes[id].blockSize, off, data, tid);
    assert [] + OnTheWire(o) + [] == OnTheWire(o);
  }

  lemma ParseNothing()
    ensures Parse([]) == Parsed([], [], false)
  {
  }
}
