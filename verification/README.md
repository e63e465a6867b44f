# XSAN: a Dafny model of the storage node

XSAN is a block-storage node written in C. This project models its stateful core and proves what that core is for.

| files | what they model |
|---|---|
| `Endian`, `Protocol`, `Framer` | the 24-byte header, the checksum, and the stream framer over a growing receive buffer |
| `Storage`, `VolumeMap`, `VolumeIo` | logical blocks mapped through extents to disks, and single-extent I/O |
| `ReplicaWrite`, `ReplicatedData` | a replica write from the sender's data to the receiver's disk, and what a successful replicated write has done on all of them |
| `Metadata`, `Replicas`, `Lifecycle`, `LifecycleRuns`, `Recovery` | volume records, replica placement, creation with rollback, deletion, all runs of both, and restart |
| `Links`, `ReadFailover`, `ReplicatedWrite` | the two asynchronous protocols, one step per callback |
| `HashTable`, `LinkedList`, `MemoryPool`, `DebugHeap` | the heap structures: a table that is a map, a list that is a sequence, a pool whose two lists share one link, and the counting allocator |
| `ConfigText`, `Config`, `StrReplace` | the configuration text and its round trip, and substring replacement |
| `Common`, `Arith` | C integers, results, `memcpy`, and lemmas on products and quotients |

Main results, each for all inputs or all runs:

- Framing depends only on the bytes, never on how the network cuts them, and equals a short recursive parse.
- An I/O acts on the flat volume exactly when it is *direct*; one extent and a dividing disk block size make it so.
- A replica write arrives as the write that was sent exactly when it fits the largest receive buffer.
- Over every run of creation and deletion, list, records and disk space stay in step, and a restart brings back the same volumes.
- Failover calls its user exactly once with the first replica that delivers. A replicated write counts every replica
  once and knows when the last one has reported; success means that every replica holds the data.
- The table is a finite map, the list a sequence, the pool never hands out live data, the debug counters are exact.
- A configuration file preserves every lookup exactly when every item is storable.

Where a property fails, the code is kept as it is, a member shows inputs on which it fails, and the exact condition
is proved:

- reads and writes across extents or on coarse disk blocks, and what they do to other volumes (`VolumeIo`);
- offsets and volume sizes next to 2^64 (`VolumeIo`);
- payloads between 8,437,760 bytes and 16 MiB (`Framer`), byte exchanges under the checksum (`Protocol`);
- block addresses beyond 2^64 bytes and writes of 2^32 blocks or more (`ReplicaWrite`);
- names of 256 characters or more, requested sizes next to 2^64 (`Lifecycle`, `LifecycleRuns`);
- a write with no writable replica (`ReplicatedWrite`);
- a pool free that cuts off other blocks (`MemoryPool`), the level of use outside debug mode (`DebugHeap`);
- small longs and unclean strings in a configuration file (`Config`).

`dafny verify dfyconfig.toml` checks the project.

How the C code is read:

- An entity the code updates in place is a class, and its methods are proved against a function or an abstract value;
  what is then proved about that function is what the code promises.
- 32-bit and 64-bit wrap-around is written out with `Wrap32` and `Wrap64`.
- Every answer of a lower layer (allocator, store, device, socket, cluster, clock) is a parameter, so each theorem
  covers every combination of answers and failures that its contract allows.
- Each callback is one atomic step. The order in which callbacks arrive is arbitrary.
- `src/network/protocol.c:128` calls the checksum an exclusive-or sum, and the code adds bytes; the model adds.
- Header errors are `XSAN_ERROR_INVALID_PARAM` in the code and a protocol error in the header's comment; the model
  keeps one refusal.
- `src/storage/volume_manager.c:528` jumps to a label that is not defined; it is read as the cleanup that frees the
  allocation metadata.
- The cap on replicas at `src/storage/volume_manager.c:460-465` can never bind after the check on FTT, and is left
  out of `Replicas.AssignReplicas`.
- `src/network/xsan_node_comm.c:348` reads the length from the message after its handler ran; the model uses the saved
  header, which holds the same value.
- `src/storage/volume_manager.c:799` takes the completion's argument for the I/O request, while `src/io/xsan_io.c:122`
  passes the physical I/O context; the model reads it as the request, whose context is then the one that was passed in.
- Nothing under `src/` calls `xsan_protocol_verify_checksum`, so no received message is checked against its checksum;
  the checksum theorems are about that function, and the framer and the handler do not use them.
- `_xsan_check_replicated_write_completion` has no body in the sources; completion is "all targeted replicas have
  reported" (`src/include/xsan_replication.h:31-36`). The extent allocator is its header's contract
  (`src/include/xsan_disk_manager.h:203`).

## Model

| member | source | states |
|---|---|---|
| `Endian.HtonllIsBigEndian` | src/network/protocol.c:18-20 | The 64-bit swap on a little-endian machine leaves the big-endian bytes of the number in memory, for every number. |
| `Endian.NtohllReadsBig` | src/network/protocol.c:28-29 | Swapping eight received bytes back reads the big-endian number they spell. |
| `Endian.HtonllInvolution` | src/network/protocol.c:18-29 | Swapping twice is the identity. |
| `Protocol.HeaderSerialize` | src/network/protocol.c:47-73 | Writes exactly the 24 big-endian header bytes and leaves the rest of the buffer alone. |
| `Protocol.HeaderDeserialize` | src/network/protocol.c:75-126 | Gives the header whose image the bytes are iff they begin with the four magic bytes and bytes 8 to 11 spell a length of at most 16 MiB; the version is read and not looked at. |
| `Protocol.HeaderFields` | src/network/protocol.c:75-126 | Every 24 bytes are the image of exactly the header read off them, so no byte is ignored. |
| `Protocol.HeaderBytesInjective` | src/network/protocol.c:47-73 | Different headers have different images. |
| `Protocol.FieldSlices` | src/network/protocol.c:47-73 | Where each field stands in the image, and that it is big-endian there. |
| `Protocol.HeaderRoundTrip` | src/network/protocol.c:47-126 | Decoding an encoded header gives it back exactly when it is acceptable, and nothing otherwise. |
| `Protocol.CalculateChecksum` | src/network/protocol.c:129-158 | The loop with its 32-bit accumulator computes the byte sum modulo 2^32. |
| `Protocol.ChecksumNeverWraps` | src/network/protocol.c:129-158 | For header and legal payload the byte sum stays below 2^32, so the checksum is exact. |
| `Protocol.VerifyChecksum` | src/network/protocol.c:160-209 | Accepts iff the header carries checksum 0, or there is memory for the scratch buffer and it carries the exact sum over the header with its checksum field zeroed and the payload. |
| `Protocol.MessageCreate` | src/network/protocol.c:212-268 | No message for a payload over the limit or without memory; otherwise one that carries kind, transaction id, version 1, length and payload as given (zeros when none is given) under its checksum. |
| `Protocol.MessageCreateWithData` | src/network/protocol.c:279-344 | No message when both parts together exceed the limit, computed in 64 bits, or without memory; otherwise one that carries kind, transaction id, version 1, length and both parts one behind the other. |
| `Protocol.SealedVerifies` | src/network/protocol.c:212-268 | A created message carries kind, transaction id, version, length and payload as given, never checksum 0, an acceptable header, and verifies. |
| `Protocol.TamperedPayloadVerifies` | src/network/protocol.c:160-209 | A created header accepts another payload of the same length iff the byte sums are equal. |
| `Protocol.OneByteChangeIsRejected` | src/network/protocol.c:160-209 | Every change of one payload byte is rejected. |
| `Protocol.ByteSwapIsAccepted` | src/network/protocol.c:137-140 | Exchanging two neighbouring payload bytes is never noticed: the checksum is a plain sum. |
| `Framer.ParseAppend` | src/network/xsan_node_comm.c:306-353 | Parsing a stream is parsing its first part and then the undecided rest followed by the second part: a cut changes nothing. |
| `Framer.ParseEncodeAll` | src/network/xsan_node_comm.c:306-353 | Parsing the encodings of any deliverable messages, one behind the other, gives exactly those messages and nothing left over. |
| `Framer.ParseMeaning` | src/network/xsan_node_comm.c:306-353 | Every stream is the encodings of the messages delivered, followed by bytes that are unfinished, or, when the framer gives up, by bytes that can never make a message. |
| `Framer.ParseUnique` | src/network/xsan_node_comm.c:306-353 | Conversely, any such reading of a stream is the one that is delivered. |
| `Framer.DeliveredExactlyWhenItFits` | src/network/xsan_node_comm.c:287-296 | A well-framed message is delivered iff its payload is at most 8,437,760 bytes; a longer one closes the connection although the protocol allows 16 MiB. |
| `Framer.Extends` | src/network/xsan_node_comm.c:306-353 | More bytes never retract a delivered message. |
| `Framer.Connection.CapacityBound` | src/network/xsan_node_comm.c:287-296 | The buffer is 4120 doubled at most 11 times, and the doubling is refused exactly at 8,437,760 bytes. |
| `Framer.Connection.Grow` | src/network/xsan_node_comm.c:287-296 | A full buffer is doubled with its bytes kept, or the connection is closed: at the largest size because the parse of the stream says so, earlier only for want of memory. |
| `Framer.Connection.TakeHeader` | src/network/xsan_node_comm.c:307-318 | Takes a header off the front, or closes on a bad one exactly when the stream parse does. |
| `Framer.Connection.Dispatch` | src/network/xsan_node_comm.c:321-351 | Delivers one message and moves the remaining bytes to the front, so that delivered messages and buffer still account for the whole stream; without memory it closes and delivers nothing. |
| `Framer.Connection.Drain` | src/network/xsan_node_comm.c:306-353 | The inner loop stops only when nothing more can be taken. |
| `Framer.Connection.ProcessReceivedData` | src/network/xsan_node_comm.c:281-370 | For every way the socket cuts and delays the bytes, the messages handed over are those of the recursive parse of all bytes received so far, and a close by the framer is a close by that parse. Running out of memory closes early, with a prefix of those messages delivered. |
| `VolumeMap.CoveredBlockFits` | src/storage/volume_manager.c:755-776 | A block that passes the range test ends inside its extent, over the integers, whatever wraps on the way. |
| `VolumeMap.CoversIffContains` | src/storage/volume_manager.c:763-771 | Where nothing wraps, the range test is that the whole block lies in the extent, over the integers. |
| `VolumeMap.MapLbaToPhysical` | src/storage/volume_manager.c:691-795 | Maps through the first extent whose range test the block passes, to the stated disk block; each error is returned exactly when its guard fails, and the internal error never, for all inputs. |
| `VolumeIo.BuildRequest` | src/storage/volume_manager.c:836-908 | The checks and the request built are the plan: first block mapped, whole length in disk blocks, or the first failing check's error. |
| `VolumeIo.PlanGuards` | src/storage/volume_manager.c:836-842 | An I/O that is empty, not whole volume blocks, or past the end as 64 bits tell it is refused with the alignment error; one that reaches a device is on a mapped block of a disk with a descriptor, in whole volume blocks and whole disk blocks. |
| `VolumeIo.PlanPassesErrors` | src/storage/volume_manager.c:850-874 | Past those checks the block map's error is the I/O's, and so is a missing descriptor. |
| `VolumeIo.PlanLength` | src/io/xsan_io.c:177-193 | A submitted request covers exactly the asked length and ends inside its disk. |
| `VolumeIo.InRangeIffNoWrap` | src/storage/volume_manager.c:836-842 | An I/O that reaches the device ends inside its volume iff offset + length is below 2^64. |
| `VolumeIo.NoOutOfRangeRequest` | src/io/xsan_io.c:177-193 | On disk blocks up to 64 KiB and volumes below 2^64 - 2^48 + 65536 bytes plus one block, no I/O that reaches the device leaves its volume, despite 64-bit and 32-bit wrap-around. |
| `VolumeIo.WrapAroundReachesDevice` | src/storage/volume_manager.c:836-842 | On every larger volume of 512-byte or 4096-byte blocks, laid out on two disks, the longest I/O at the last block passes every check and leaves the volume. |
| `VolumeIo.EscapeIffLarge` | src/storage/volume_manager.c:836-842 | Some sound layout lets an out-of-range I/O reach the device iff the volume has at least 2^64 - 2^48 + 65536 bytes plus one block. |
| `VolumeIo.PlanAtHome` | src/storage/volume_manager.c:847-893 | What every aligned I/O on a laid-out volume becomes: the block where its first byte lives, floored by the disk block size, or the exact error. |
| `VolumeIo.ReadIsFlatIffDirect` | src/storage/volume_manager.c:823-917 | Reads return the flat volume's bytes on every disk content iff the I/O is direct: every byte lives where the first byte's place plus its distance says, and the block count fits. |
| `VolumeIo.WriteIsFlatIffDirect` | src/storage/volume_manager.c:823-917 | A write changes exactly its own bytes of the flat volume, for all data, iff the I/O is direct. |
| `VolumeIo.OneExtentIsDirect` | src/storage/volume_manager.c:777-785 | An aligned I/O inside one extent on a disk whose block size divides the volume's is direct. |
| `VolumeIo.OtherVolumeKeepsIffMissed` | src/storage/volume_manager.c:847-893 | Any write that reaches a device, direct or not, leaves another volume unchanged for all data iff its request covers no byte of that volume. |
| `VolumeIo.OtherVolumesKeep` | src/storage/volume_manager.c:823-917 | A direct write leaves every volume whose extents are disjoint unchanged, byte for byte. |
| `VolumeIo.CrossingReachesNeighbour` | src/storage/volume_manager.c:847-893 | A write across two extents whose request covers a block of another volume, though all extents are disjoint. |
| `VolumeIo.HomeInjective` | src/storage/volume_manager.c:755-790 | Different bytes of a volume live at different places. |
| `VolumeIo.CrossingExtents` | src/storage/volume_manager.c:847-893 | A two-extent volume on which an aligned I/O is not direct: staying in one extent is needed. |
| `VolumeIo.CoarseDiskBlocks` | src/storage/volume_manager.c:782-782 | A disk with larger blocks than the volume on which an aligned I/O is not direct: divisibility is needed. |
| `VolumeIo.BlockDevices.SubmitSingleIo` | src/storage/volume_manager.c:823-917 | Succeeds iff the plan does; a read fills the buffer from the planned place, a write changes only the planned place; a malformed I/O gets the alignment error, and no error changes contents or buffer. |
| `ReplicaWrite.BuildReplicaWrite` | src/storage/volume_manager.c:1311-1320 | With memory, the sealed message of request structure and data, both cut to 32 bits as the code cuts them. |
| `ReplicaWrite.HandleReplicaWrite` | src/storage/volume_manager.c:1376-1421 | Decoding inverts encoding: for the request whose image the payload is, an unknown volume, an empty request, a wrong data length and want of memory each get their error, and otherwise its data goes to its volume at its block address; a payload that is no image and another message kind are refused. |
| `ReplicaWrite.RequestOf` | src/storage/volume_manager.c:1388-1391 | Every payload of at least 28 bytes is the image of the request read off it. |
| `ReplicaWrite.ImageInjective` | src/storage/volume_manager.c:1311-1320 | The request read off an image is the one that was sent. |
| `ReplicaWrite.OffsetIsNamedIffBelow` | src/storage/volume_manager.c:1414-1414 | An accepted request is written at the place its block address names iff that place is below 2^64. |
| `ReplicaWrite.FarBlockIsTakenForFirst` | src/storage/volume_manager.c:1414-1414 | Block address 2^55 on 512-byte blocks is written at offset 0. |
| `ReplicaWrite.HandlerVerdict` | src/storage/volume_manager.c:1400-1414 | The verdict on every aligned write, of any length: accepted iff the 32-bit cuts of length and block count still match, and then for the part that was sent. |
| `ReplicaWrite.AcceptedIsWhole` | src/storage/volume_manager.c:1406-1412 | Below 2^32 blocks an accepted write is the whole write. |
| `ReplicaWrite.LongWriteIsCut` | src/storage/volume_manager.c:1314-1320 | A write of 2^32 + 1 blocks is accepted as a write of its first block. |
| `ReplicaWrite.ReplicaWriteArrivesIffItFits` | src/storage/volume_manager.c:1388-1440 | An aligned write sent between any other traffic is framed with its transaction id, accepted and turned into the same volume, offset and data iff 28 + length <= 8,437,760; otherwise no delivered message gives that write. |
| `ReplicaWrite.ReplicaWriteIsFlat` | src/storage/volume_manager.c:1363-1440 | End to end: the write that was sent has the effect of writing the sender's bytes at the sender's offset in the replica's flat volume. |
| `Metadata.ParseTextOfText` | src/storage/volume_manager.c:225-225 | A volume id survives its text form. |
| `Metadata.KeysDistinct` | src/storage/volume_manager.c:551-566 | Store keys name their volume and their kind: no two volumes and no two kinds share a key. |
| `Metadata.VolumeRoundTrip` | src/storage/volume_manager.c:222-285 | A volume record decodes to the volume that was saved iff every field fits its record (name, addresses, slots beyond the count empty, count in range). |
| `Metadata.AllocRoundTrip` | src/storage/volume_manager.c:136-219 | An allocation record decodes to what was saved iff it has at most 8 extents. |
| `Metadata.Clip` | src/utils/string_utils.c:20-33 | Safe copy keeps a prefix: the whole string if it fits, and otherwise all but the terminator's byte of the buffer. |
| `Replicas.AssignReplicas` | src/storage/volume_manager.c:458-509 | Slot 0 is the local node, online; the next slots are the first known nodes that are not it, in order, initialising, FTT of them or all there are; FTT and count are lowered to what was found; the rest is blank. |
| `Replicas.SlotsDistinct` | src/storage/volume_manager.c:458-509 | The filled slots name pairwise different nodes, local first. |
| `Replicas.UpdateOverallState` | src/storage/volume_manager.c:287-316 | The loop counts the online copies among the slots in use and grades them against FTT + 1, capped by the copies there are. |
| `Replicas.OverallStateCounts` | src/storage/volume_manager.c:290-307 | Online with FTT + 1 copies online or with all there are, offline with none, degraded in between. |
| `Replicas.OverallStateMeaning` | src/storage/volume_manager.c:297-307 | Without spare copies a volume is online iff every copy is, offline iff none is, and degraded in between. |
| `Replicas.InitialStateIsOverallState` | src/storage/volume_manager.c:559-564 | The state a new volume starts in is the state a recomputation gives it. |
| `Replicas.TargetsAgreeIff` | src/replication/xsan_replication_common.c:55-66 | One write-context constructor targets the replica count, the other the lesser of that and FTT + 1; they agree iff the count does not exceed FTT + 1 (in 32 bits). |
| `Lifecycle.RoundsUpIffNoWrap` | src/storage/volume_manager.c:452-453 | The rounded size holds the requested one iff size + block size - 1 does not wrap; when it wraps there are no blocks; the product itself never wraps. |
| `LifecycleRuns.CreatedSizeIffNoWrap` | src/storage/volume_manager.c:452-453 | A successful creation lists a volume of at least the requested size iff that sum does not wrap, and otherwise one of no blocks. |
| `LifecycleRuns.HugeVolumeIsEmpty` | src/storage/volume_manager.c:452-453 | A request for 2^64 - 1 bytes succeeds and lists a volume of no blocks. |
| `Lifecycle.VolumeManager.NameTaken` | src/storage/volume_manager.c:423-429 | Finds a volume of the same name, or of a name that agrees with a long one in its first 256 characters. |
| `Lifecycle.VolumeManager.Record` | src/storage/volume_manager.c:545-589 | Writes both records and lists the volume, or undoes its store entries at whichever step fails. |
| `Lifecycle.VolumeManager.Create` | src/storage/volume_manager.c:407-605 | Succeeds iff nothing stands in the way, and otherwise fails with the first objection and changes nothing. Success lists the volume asked for behind the others, puts both records in the store and takes the allocated space, and nothing else. |
| `Lifecycle.NewVolumeIsAsRequested` | src/storage/volume_manager.c:445-564 | The volume has the id, name, group and block size asked for, the least number of blocks that hold the size, its copies placed, and starts online with one copy and degraded with more. |
| `Lifecycle.RefusalIsFirstObjection` | src/storage/volume_manager.c:407-579 | The error is that of the first step that objects. |
| `Lifecycle.VolumeManager.Delete` | src/storage/volume_manager.c:607-689 | Succeeds iff the id is not null and listed; then the first volume of that id leaves the list, exactly its two records leave the store, and exactly its recorded extents go back. Otherwise an error and no change. |
| `LifecycleRuns.NewVolumeIsSound` | src/storage/volume_manager.c:445-564 | A created volume has FTT + 1 copies on different nodes, local first, a size of whole blocks, a stable initial state, and both context constructors target all copies. |
| `LifecycleRuns.CreateKeepsInv` | src/storage/volume_manager.c:407-605 | Creation, failed or not, keeps: listed ids, volume records and allocation records name the same volumes, every record decodes to its volume, and handed-out space is the disjoint union of recorded extents. |
| `LifecycleRuns.DeleteKeepsInv` | src/storage/volume_manager.c:607-689 | Deletion keeps the same. |
| `LifecycleRuns.DeleteTakesExactlyThatVolume` | src/storage/volume_manager.c:626-685 | In a state with the invariant, deleting a listed volume succeeds, leaves the others in order, removes exactly its two records, which were there, and returns exactly the space it held. |
| `LifecycleRuns.DeleteOfStranger` | src/storage/volume_manager.c:607-624 | Deleting anything else changes nothing. |
| `LifecycleRuns.DeletedIsGone` | src/storage/volume_manager.c:607-689 | After any run that ends in a deletion, no listed volume has the id, the store has no record of it, and none of its space is handed out. |
| `LifecycleRuns.DeleteUndoesCreate` | src/storage/volume_manager.c:607-689 | Deleting the volume just created restores list, store and space exactly. |
| `LifecycleRuns.RunKeepsInv` | src/storage/volume_manager.c:407-689 | The invariant holds after every run of creations and deletions from the empty state. |
| `LifecycleRuns.CreateKeepsNamesIff` | src/storage/volume_manager.c:423-429 | A successful creation keeps names unique iff the name has at most 255 characters or its first 255 characters are no listed name. |
| `LifecycleRuns.RunKeepsNames` | src/storage/volume_manager.c:423-429 | Names of at most 255 characters stay unique over every run. |
| `LifecycleRuns.LongNameIsTakenTwice` | src/storage/volume_manager.c:425-425 | A name of 256 characters or more is accepted twice: the check compares the request with the shortened stored name. |
| `LifecycleRuns.ListedVolumesApart` | src/storage/volume_manager.c:511-543 | In a reachable state two listed volumes share no disk block. |
| `LifecycleRuns.ReachableWriteIsIsolated` | src/storage/volume_manager.c:823-917 | After every run, a direct write to one listed volume changes exactly its own bytes there and nothing in any other. |
| `Recovery.PastPrefix` | src/storage/volume_manager.c:374-379 | In sorted order, past the first key without the prefix no key has it. |
| `Recovery.MatchingIsStretch` | src/storage/volume_manager.c:373-399 | The scan from the first key not below the prefix to the first key without it visits exactly the keys with the prefix. |
| `Recovery.LoadMetadata` | src/storage/volume_manager.c:361-405 | The seek-and-stop scan loads exactly the volume records, in order, and rewrites those whose state changed. |
| `Recovery.RestartRecoversListedVolumes` | src/storage/volume_manager.c:361-405 | After every run, a restart lists exactly the volumes that were listed, each once, and leaves the store as it was. |
| `Recovery.RestartBringsInStep` | src/storage/volume_manager.c:361-405 | On any store of volume records under their own keys: each is listed once, in key order, in the state its replicas put it in, and afterwards its record is what is listed; nothing else changes. |
| `Recovery.RestartAgain` | src/storage/volume_manager.c:361-405 | A second restart lists the same volumes and writes nothing. |
| `ReadFailover.Coordinator.TryNext` | src/storage/volume_manager.c:1011-1095 | One attempt after another from the next index on, each index started at most once. |
| `ReadFailover.Coordinator.OnLocalComplete` | src/storage/volume_manager.c:1097-1119 | The local completion ends the read or moves on to the next replica. |
| `ReadFailover.Coordinator.OnConnect` | src/storage/volume_manager.c:1121-1142 | A connection result ends the attempt or leaves it waiting for its response. |
| `ReadFailover.Coordinator.OnResponse` | src/storage/volume_manager.c:1144-1172 | A response ends the attempt; one that nobody waits for changes nothing. |
| `ReadFailover.RunRead` | src/storage/volume_manager.c:1001-1172 | Every run calls the user exactly once. If replica k is the first with memory, link and a good answer (a whole one, if remote), replicas 0 to k are tried and the user has its bytes; success always means a whole answer. If none delivers, all are tried and the user is told the last one's error. |
| `ReadFailover.OutcomeMeaning` | src/storage/volume_manager.c:1144-1168 | When an attempt delivers and with what error it fails, by cause: no memory, connection or send status, error response, missing or wrongly sized data. |
| `ReadFailover.FailsOneWay` | src/storage/volume_manager.c:1097-1119 | A failed attempt has one error and delivers nothing. |
| `ReplicatedWrite.FirstFailureMeaning` | src/storage/volume_manager.c:919-930 | The kept status is OK iff every report is, and otherwise that of the first failed report. |
| `ReplicatedWrite.WriteContext.Conclude` | src/storage/volume_manager.c:979-999 | One report: counted once, as success or failure, with the first failure kept and the replica's state set. |
| `ReplicatedWrite.WriteContext.Submit` | src/storage/volume_manager.c:1252-1344 | Starts one replica's write, or reports it at once when it cannot be written or started. |
| `ReplicatedWrite.WriteContext.Deliver` | src/storage/volume_manager.c:919-999 | One completion, connection or response: at most one report, for the right replica. |
| `ReplicatedWrite.WriteAsync` | src/storage/volume_manager.c:1174-1361 | With a writable replica the counters equal the reports; with none, failures are counted twice: one per replica and once more the target. |
| `ReplicatedWrite.CompleteExactlyAtLastReport` | src/storage/volume_manager.c:919-999 | Successes plus failures never exceed the target and reach it exactly when the last replica has reported. |
| `ReplicatedWrite.RunWrite` | src/storage/volume_manager.c:1174-1361 | Under every order of callbacks the successes counted are the replicas that are writable, have memory, message and link, and answer well; the user is told OK iff all of them do, and otherwise the status of one that failed, by its cause; each replica is recorded as its answer calls for. |
| `ReplicatedWrite.OutcomeMeaning` | src/storage/volume_manager.c:919-999 | When a replica reports success, with what status it fails, and what state is recorded for it, by cause. |
| `ReplicatedWrite.SoleFailureIsTold` | src/storage/volume_manager.c:979-999 | When exactly one replica fails, its status is the user's, with one failure counted. |
| `ReplicatedData.RunReplicatedWrite` | src/storage/volume_manager.c:1174-1361 | If the user is told the write succeeded, every replica's flat volume is the old one with the user's data at the user's offset, under any order of callbacks (direct I/O on each replica, fewer than 2^32 blocks). |
| `ReplicatedData.RemoteCarriesOutUserWrite` | src/storage/volume_manager.c:1363-1440 | What a remote replica that reports success has carried out is the user's write. |
| `ReplicatedData.ReadBack` | src/storage/volume_manager.c:1001-1172 | The same I/O on any copy that holds the write returns the user's data. |
| `HashTable.Table.Get` | src/common/hashtable.c:110-126 | Finds a key iff the map has it, with the map's value. |
| `HashTable.Table.Put` | src/common/hashtable.c:69-108 | Updates the map at the key, in place or by a new entry; without memory for a new entry nothing changes. |
| `HashTable.Table.Remove` | src/common/hashtable.c:128-159 | Removes the key from the map, and reports whether it was there. |
| `HashTable.Table.Clear` | src/common/hashtable.c:169-190 | Empties the map. |
| `HashTable.Cursor.Next` | src/common/hashtable.c:203-224 | Yields the next entry in bucket order, or the end once all have been seen. |
| `HashTable.Collect` | src/common/hashtable.c:192-224 | An iteration over an unchanged table yields each key of the map with its value exactly once and stops. |
| `MemoryPool.Pool.constructor` | src/utils/memory.c:367-415 | A new pool has its preallocated blocks free and nothing handed out. |
| `MemoryPool.Pool.Alloc` | src/utils/memory.c:450-504 | Hands out data that is not live, fails iff nothing is free and the limit or memory forbids growth, loses no block, and keeps the pool valid: both lists end, and the count stays within max(initial, max). |
| `MemoryPool.Pool.Free` | src/utils/memory.c:509-536 | A live block on the all-blocks list becomes the first free one, and that list goes on from it into the old free list: exactly the live blocks behind it are lost. Any other pointer changes nothing. Lost blocks stay lost. |
| `MemoryPool.Pool.LostIsLive` | src/utils/memory.c:519-531 | A lost block is in use and no block on the list carries its memory, so its own free changes nothing. |
| `MemoryPool.LostForGood` | src/utils/memory.c:450-536 | Over every later run of allocations and frees a lost block stays lost and is never handed out again. |
| `MemoryPool.ChainsMerge` | src/utils/memory.c:29-33 | Two lists that share a node share everything behind it: the effect of one next field for both. |
| `MemoryPool.Pool.Destroy` | src/utils/memory.c:420-445 | The final walk terminates and releases exactly the blocks still on the all-blocks list. |
| `MemoryPool.SecondBlockIsLost` | src/utils/memory.c:519-531 | A run on a pool of two blocks in which a free cuts the other live block off, so that its own free is ignored and it is never handed out again. |
| `DebugHeap.Heap.Malloc` | src/utils/memory.c:117-187 | A granted request is linked in front, marked and counted; a refused or empty one changes nothing. |
| `DebugHeap.Heap.Free` | src/utils/memory.c:264-314 | A live block is unlinked, marked and counted; in debug mode a block without the valid mark changes nothing. |
| `DebugHeap.DebugCountersConserve` | src/utils/memory.c:158-164 | In debug mode the current level is the sum of the sizes in use, and total allocated less total freed; the counts agree with the number of blocks. |
| `DebugHeap.LevelIsInUseIff` | src/utils/memory.c:307-311 | The current level is the bytes in use iff debug mode is on or the bytes freed are 0 modulo 2^64: outside debug mode a free never lowers it. |
| `DebugHeap.LevelStaysUp` | src/utils/memory.c:307-311 | One byte allocated and freed outside debug mode leaves a level of one byte with nothing in use. |
| `DebugHeap.CountOutAgrees` | src/utils/memory.c:298-301 | Freeing keeps the counters right, among them the peak as the maximum of every level so far. |
| `LinkedList.List.Append` | src/common/list.c:53-71 | Adds the value at the end of the sequence; without memory nothing changes. |
| `LinkedList.List.Prepend` | src/common/list.c:73-91 | Adds the value at the front; without memory nothing changes. |
| `LinkedList.List.InsertAfter` | src/common/list.c:93-115 | Inserts behind the given node, at the tail too; without memory nothing changes. |
| `LinkedList.List.InsertBefore` | src/common/list.c:117-139 | Inserts in front of the given node, at the head too; without memory nothing changes. |
| `LinkedList.List.RemoveNode` | src/common/list.c:141-188 | Removes that node and no other, and hands its value to the destructor if there is one. |
| `LinkedList.List.PopFront` | src/common/list.c:190-206 | Takes the first value, or none from an empty list. |
| `LinkedList.List.PopBack` | src/common/list.c:208-224 | Takes the last value, or none from an empty list. |
| `LinkedList.List.Clear` | src/common/list.c:254-270 | Empties the list; every value goes to the destructor once, front to back. |
| `LinkedList.List.Forward` | src/common/list.c:226-236 | Walking next from the head visits the sequence. |
| `LinkedList.List.Backward` | src/common/list.c:230-240 | Walking prev from the tail visits the reverse of the forward walk. |
| `ConfigText.ParseConfigLine` | src/utils/string_utils.c:589-647 | The pointer walk reads off a line what the specification of a line says. |
| `ConfigText.PairOf` | src/utils/string_utils.c:589-647 | Any clean key and value with any blank space around them are read back. |
| `ConfigText.PairSplits` | src/utils/string_utils.c:589-647 | Conversely, whatever is read stands on the line with only blank space around it, and is clean. |
| `ConfigText.ScanDecimal` | src/utils/string_utils.c:463-479 | Every long, printed in decimal, scans back as itself. |
| `ConfigText.ScanLongOf` | src/utils/string_utils.c:463-479 | Blank space, an optional sign and digits scan as their value iff it fits a long. |
| `ConfigText.ScanLongSplits` | src/utils/string_utils.c:463-479 | Nothing else scans as a long. |
| `ConfigText.ScanBoolIff` | src/utils/string_utils.c:505-529 | True and false each have their four spellings, in any case, and no others. |
| `ConfigText.DecimalIsPlain` | src/utils/config.c:317-322 | Numbers print without leading zeros and without a plus sign. |
| `Config.Settings.FindItem` | src/utils/config.c:48-63 | Finds the item with the key iff there is one. |
| `Config.Settings.SetItem` | src/utils/config.c:84-140 | Afterwards the key has the value and every other key what it had; keys stay distinct and counted. |
| `Config.Settings.RemoveKey` | src/utils/config.c:450-475 | The key is gone, every other key has what it had, and the answer says whether it was there. |
| `Config.Settings.LoadFromText` | src/utils/config.c:178-241 | The reading loop with its 1024-byte buffer loads exactly the lines of the text, in order, each value with its guessed type. |
| `Config.LinesJoin` | src/utils/config.c:203-207 | The pieces read make up the text. |
| `Config.LinesMeaning` | src/utils/config.c:203-207 | A piece ends at a newline, or after 1023 characters, or with the text. |
| `Config.InferCases` | src/utils/config.c:219-229 | When each type is guessed. |
| `Config.LastLineWins` | src/utils/config.c:207-231 | After loading, a key has the guessed value of the last line that sets it. |
| `Config.UnsetKey` | src/utils/config.c:207-231 | A key that no line sets has no value. |
| `Config.Settings.SaveToText` | src/utils/config.c:294-337 | The text written: header, then one line per item in list order. |
| `Config.Settings.GetInt` | src/utils/config.c:394-401 | The value of an int item, the default for a missing key or another type. |
| `Config.LoadSave` | src/utils/config.c:178-337 | Loading saved clean items gives each back with the type its text looks like, in reverse order. |
| `Config.LoadedIsLoadable` | src/utils/config.c:207-231 | No text at all can make loading produce an item that a file could not keep, doubles aside. |
| `Config.RoundTripIff` | src/utils/config.c:178-337 | Every lookup survives saving and loading iff every item is storable: key and string clean, string not looking like another type, long outside int range, double exact in six decimals. |
| `Config.LongComesBackByRange` | src/utils/config.c:219-222 | Among any clean items, every long comes back as a long iff it is outside int range, and as an int of the same value otherwise. |
| `Config.SmallLongIsLost` | src/utils/config.c:219-222 | The long 5 comes back as the int 5. |
| `StrReplace.Replace` | src/utils/string_utils.c:341-391 | Gives the string with the leftmost non-overlapping matches replaced, or nothing when memory is refused; an empty pattern copies. |
| `StrReplace.Fill` | src/utils/string_utils.c:374-388 | The second pass writes exactly the sized buffer, terminator last, and never outside it. |
| `StrReplace.SizeIsExact` | src/utils/string_utils.c:367-368 | The wrapped 64-bit size arithmetic gives the exact length modulo 2^64, even when the replacement is shorter. |
| `StrReplace.JoinPieces` | src/utils/string_utils.c:356-361 | The pieces between the matches, joined by the pattern, are the string. |
| `StrReplace.PiecesHoldNoMatch` | src/utils/string_utils.c:356-361 | No piece contains the pattern. |
| `StrReplace.PiecesAreLeftmost` | src/utils/string_utils.c:377-386 | Each match that is replaced is the first one from the end of the previous match on. |
| `Outcomes.FromErrno` | src/common/error.c:128-171 | Maps to success iff the number is 0. |

## Left out

- Null-pointer guards: references are non-null types, so these branches do not occur.
- Mutexes and threads. As written, the metadata loader holds the lock that the state update it calls at `src/storage/volume_manager.c:389` takes again.
- Memory ownership of I/O contexts: an entry is dropped once, and who frees it is not modelled.
- The lower layers that both call back and return an error (`src/io/xsan_io.c:266-268`, `src/network/xsan_node_comm.c:460-461`): both protocols assume one or the other.
- The ignored result of the connect call (`src/storage/volume_manager.c:1093`, `src/storage/volume_manager.c:1338`): a connect attempt is assumed to call back.
- Partial socket writes (`src/network/xsan_node_comm.c:464-470`): a send passes all bytes on.
- Lifecycle.VolumeManager.Create: the store calls made while undoing a failed step succeed, the allocator hands out free space only, and a generated id is new.
- Lifecycle.VolumeManager.Record: the store deletes that undo an entry succeed.
- Lifecycle.VolumeManager.Delete: the store calls and the freeing of extents succeed.
- Metadata.VolumeRoundTrip: a record is its fields; the JSON text, missing fields and wrongly typed fields are not modelled, and the loops of the serialisers are functions on values.
- Metadata.AllocRoundTrip: the same.
- VolumeIo.BlockDevices.SubmitSingleIo: the device completes every in-range request without an error.
- Recovery.LoadMetadata: every record decodes, and the list has memory for every volume.
- ReadFailover.Coordinator.OnResponse: a response beyond the one per request, arriving while the next connection is being made, is not modelled; the code would take it for the next replica's.
- ReplicatedWrite.WriteAsync: the checks before the context is made (parameters, volume state, alignment, no replicas) and the failure to enter it in the table are not modelled; nothing has been sent when they refuse.
- ReplicatedData.RunReplicatedWrite: a node that reports success is assumed to have carried out what its handler submitted.
- Config.Settings.SetItem: memory for the item and its string is always found.
- DebugHeap.Heap.Malloc: blocks in use fit one 64-bit address space; adding the header size to the request, and calls before initialisation, are not modelled.
- DebugHeap.Heap.Free: calls before initialisation are not modelled.
- StrReplace.Replace: the result and its terminator must be shorter than 2^64 bytes.
- Config.Settings.LoadFromText: the item list is a sequence, its links are not modelled, and the text holds no NUL character.
- Config.RoundTripIff: doubles are an abstract type with a printer and a scanner; the header time stamp is what `ctime` prints.
- MemoryPool.Pool.Destroy: releases are listed, not performed.
- Destructor callbacks of the hash table, and the test for a null value before the list's destructor.
- `xsan_realloc`: in debug mode it locks a mutex it already holds.
- The error codes `XSAN_ERROR_RESOURCE_UNAVAILABLE` and its neighbours have no number in `include/xsan_error.h`; they are names, or the parameter `code`.
- The replica read handler and the sending side of remote reads: the same layout and checks as the write handler.
- `xsan_config_load_from_string`: differs from the file loader only in how lines are cut.
- SPDK, RocksDB, json-c and epoll, the cluster, NVMe-oF and vhost layers, logging, the ring buffer, error texts and the remaining string helpers: foreign code, wiring or easy members.
