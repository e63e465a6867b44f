/** Entities shared by the storage modules. */
module Storage {
  import opened MachineInts

  const MAX_REPLICAS: nat := 3
  const MAX_NAME_LEN: nat := 256
  const MAX_EXTENTS_PER_VOLUME: nat := 8

  type Uuid = s: seq<byte> | |s| == 16 witness [0, 0, 0, 0, 0, 0, 0, 0, 0, 0, 0, 0, 0, 0, 0, 0]

  const NULL_UUID: Uuid := [0, 0, 0, 0, 0, 0, 0, 0, 0, 0, 0, 0, 0, 0, 0, 0]

  datatype State = Unknown | Initializing | Online | Offline | Degraded | Failed | Missing | Rebuilding | Maintenance

  datatype Replica = Replica(node: Uuid, ip: string, port: uint16, state: State, lastContact: uint64)

  /** A slot as `memset` leaves it. */
  const EMPTY_SLOT: Replica := Replica(NULL_UUID, "", 0, Unknown, 0)

  datatype Volume = Volume(
    id: Uuid,
    name: string,
    sizeBytes: uint64,
    blockSize: uint32,
    numBlocks: uint64,
    state: State,
    group: Uuid,
    thin: bool,
    allocatedBytes: uint64,
    ftt: uint32,
    replicaCount: uint32,
    replicas: seq<Replica>)

  /** A run of blocks on one disk that holds the volume's blocks from `volumeStartLba` on. */
  datatype Extent = Extent(disk: Uuid, startBlock: uint64, numBlocks: uint64, volumeStartLba: uint64)

  datatype AllocMeta = AllocMeta(volumeId: Uuid, group: Uuid, extents: seq<Extent>, totalBlocks: uint64, blockSize: uint32)

  /** A disk as the disk manager describes it. */
  datatype Disk = Disk(blockSize: uint32, numBlocks: uint64, hasDescriptor: bool)
}
