/** Every run of creations and deletions: list, store and handed-out space stay in step. */
module LifecycleRuns {
  import opened MachineInts
  import opened Outcomes
  import opened Arith
  import opened Storage
  import opened VolumeMap
  import opened VolumeIo
  import opened Metadata
  import opened Replicas
  import opened Lifecycle

  // ---------------------------------------------------------------- the invariant

  ghost predicate HasAllocRecord(s: VmState, id: Uuid) {
    AllocKey(id) in s.store && s.store[AllocKey(id)].AllocRecord?
  }

  /** The allocation on record for a volume; an empty one if there is none. */
  ghost function MetaOf(s: VmState, id: Uuid): AllocMeta {
    if HasAllocRecord(s, id) then DecodeAlloc(s.store[AllocKey(id)].alloc) else AllocMeta(id, NULL_UUID, [], 0, 0)
  }

  /** A volume descriptor as creation leaves it. */
  ghost predicate Sound(v: Volume) {
    && v.id != NULL_UUID
    && Storable(v)
    && 1 <= v.replicaCount == v.ftt + 1 <= MAX_REPLICAS
    && (forall i, j :: 0 <= i < j < v.replicaCount ==> v.replicas[i].node != v.replicas[j].node)
    && v.state == OverallState(v)
  }

  /** The allocation fits the volume: nothing for a thin one, a full layout without overlaps for a thick one. */
  ghost predicate SoundMeta(disks: Disks, v: Volume, m: AllocMeta) {
    && m.volumeId == v.id
    && Describes(m, v)
    && if v.thin then m.extents == [] else LaidOut(disks, m) && Separate(m.extents)
  }

  /** Both records of a listed volume are there and say what they should. */
  ghost predicate OnRecord(disks: Disks, s: VmState, v: Volume) {
    && Sound(v)
    && VolumeKey(v.id) in s.store && s.store[VolumeKey(v.id)] == VolumeRecord(EncodeVolume(v))
    && HasAllocRecord(s, v.id) && SoundMeta(disks, v, MetaOf(s, v.id))
  }

  ghost predicate DistinctIds(volumes: seq<Volume>) {
    forall i, j :: 0 <= i < j < |volumes| ==> volumes[i].id != volumes[j].id
  }

  ghost predicate AllOnRecord(disks: Disks, s: VmState) {
    forall v <- s.volumes :: OnRecord(disks, s, v)
  }

  /** The store names no volumes but the listed ones. */
  ghost predicate NoStrangers(s: VmState) {
    forall k {:trigger Claimed(s, k)} :: k in s.store ==> Claimed(s, k)
  }

  ghost predicate Claimed(s: VmState, k: string) {
    exists v <- s.volumes :: k == VolumeKey(v.id) || k == AllocKey(v.id)
  }

  /** The blocks on record for a volume. */
  ghost function Held(s: VmState, id: Uuid): set<PhysBlock> {
    BlocksOf(RecordedExtents(s.store, id))
  }

  /** The space handed out is what the listed volumes have on record. */
  ghost predicate SpaceIsHeld(s: VmState) {
    forall b :: b in s.handedOut <==> exists v <- s.volumes :: b in Held(s, v.id)
  }

  /** No block is on record for two volumes. */
  ghost predicate HeldApart(s: VmState) {
    forall v <- s.volumes, w <- s.volumes :: v.id != w.id ==> Held(s, v.id) !! Held(s, w.id)
  }

  ghost predicate Inv(disks: Disks, s: VmState) {
    DistinctIds(s.volumes) && AllOnRecord(disks, s) && NoStrangers(s) && SpaceIsHeld(s) && HeldApart(s)
  }

  // ---------------------------------------------------------------- the surroundings' side of the bargain

  /**
   Generated ids are new, the cluster lists each node once, and the allocator hands out free space: extents that do
   not overlap anything handed out or each other and that cover the blocks asked for.
   */
  ghost predicate Contract(disks: Disks, s: VmState, req: CreateRequest, env: Answers) {
    && env.newId != NULL_UUID
    && VolumeKey(env.newId) !in s.store && AllocKey(env.newId) !in s.store
    && (env.knownNodes.Ok? ==> Replicas.DistinctIds(env.knownNodes.value))
    && (env.allocation.Ok? ==> BlocksOf(env.allocation.value) !! s.handedOut)
    && (LegalRequest(req) && !req.thin && env.allocation.Ok? ==>
          LaidOut(disks, NewMeta(req, env)) && Separate(env.allocation.value))
  }

  // ---------------------------------------------------------------- creation

  /**
   Every volume that creation builds has FTT + 1 copies on pairwise different nodes, local first, and starts in
   the state a recomputation would give it; both write-context constructors target all of its copies.
   */
  lemma NewVolumeIsSound(req: CreateRequest, env: Answers)
    requires LegalRequest(req) && env.localNode.Ok? && env.newId != NULL_UUID
    requires env.knownNodes.Ok? ==> Replicas.DistinctIds(env.knownNodes.value)
    ensures var v := NewVolume(req, env);
      && Sound(v)
      && v.ftt <= req.ftt
      && v.replicas[0].node == env.localNode.value.id
      && ClampedTarget(v) == CountTarget(v) == Some(v.replicaCount)
      && v.sizeBytes == v.numBlocks * v.blockSize
  {
    hide BlockCount, Clip, OverallState, InitialState;
    var v := NewVolume(req, env);
    SlotsDistinct(env.localNode.value, env.now, env.knownNodes, req.ftt);
    SlotStates(env.localNode.value, env.now, Chosen(env.knownNodes, env.localNode.value.id, req.ftt));
    InitialStateIsOverallState(v);
    StateDoesNotMatter(v, Unknown);
    TargetsAgreeIff(v);
    RoundsUpIffNoWrap(req.sizeBytes, req.blockSize);
    MulNonneg(v.numBlocks, v.blockSize);
  }

  lemma StateDoesNotMatter(v: Volume, s: State)
    requires |v.replicas| == MAX_REPLICAS && v.replicaCount <= MAX_REPLICAS
    ensures OverallState(v.(state := s)) == OverallState(v) && InitialState(v.(state := s)) == InitialState(v)
  {
  }

  lemma SlotStates(local: Node, now: uint64, remotes: seq<Node>)
    requires |remotes| < MAX_REPLICAS
    ensures var s := Slots(local, now, remotes);
      && s[0].state == Online
      && (forall i :: 1 <= i <= |remotes| ==> s[i].state == Initializing)
      && (forall i :: 0 <= i <= |remotes| ==> |s[i].ip| < MAX_IP_LEN)
      && (forall i :: |remotes| < i < MAX_REPLICAS ==> s[i] == EMPTY_SLOT)
  {
    assert Slots(local, now, remotes)[0] == LocalReplica(local, now);
    assert forall i :: 1 <= i <= |remotes| ==> Slots(local, now, remotes)[i] == RemoteReplica(remotes[i - 1]);
  }

  lemma CreateKeepsInv(disks: Disks, s: VmState, req: CreateRequest, env: Answers)
    requires Inv(disks, s) && Contract(disks, s, req, env)
    ensures Inv(disks, CreateOutcome(s, req, env).0)
  {
    hide Refusal, NewVolume, NewMeta, AllocKey, VolumeKey, EncodeVolume, EncodeAlloc, DecodeAlloc, BlocksOf, LaidOut, Separate, Sound;
    if Refusal(s.volumes, req, env).None? {
      NotRefused(s.volumes, req, env);
      NewVolumeIsSound(req, env);
      var v, m := NewVolume(req, env), NewMeta(req, env);
      NewMetaFits(disks, s, req, env);
      AllocRoundTrip(m);
      CommitKeepsInv(disks, s, v, m);
    }
  }

  lemma NotRefused(volumes: seq<Volume>, req: CreateRequest, env: Answers)
    requires Refusal(volumes, req, env).None?
    ensures LegalRequest(req) && env.localNode.Ok? && (!req.thin ==> env.allocation.Ok?)
    ensures forall v <- volumes :: !SameName(v.name, req.name)
    ensures |NewMeta(req, env).extents| <= MAX_EXTENTS_PER_VOLUME
    ensures NewVolume(req, env).id == NewMeta(req, env).volumeId == env.newId
  {
  }

  lemma NewMetaFits(disks: Disks, s: VmState, req: CreateRequest, env: Answers)
    requires Contract(disks, s, req, env) && LegalRequest(req) && env.localNode.Ok? && (!req.thin ==> env.allocation.Ok?)
    ensures SoundMeta(disks, NewVolume(req, env), NewMeta(req, env))
    ensures BlocksOf(NewMeta(req, env).extents) !! s.handedOut
  {
    hide BlockCount;
    RoundsUpIffNoWrap(req.sizeBytes, req.blockSize);
    MulNonneg(BlockCount(req.sizeBytes, req.blockSize), req.blockSize);
    EmptyExtents();
  }

  /** Adding a volume's records leaves those of the others alone. */
  lemma CommitKeepsRecords(disks: Disks, s: VmState, v: Volume, m: AllocMeta, w: Volume)
    requires |v.replicas| == MAX_REPLICAS
    requires VolumeKey(v.id) !in s.store && AllocKey(v.id) !in s.store
    requires w in s.volumes && OnRecord(disks, s, w)
    ensures w.id != v.id && OnRecord(disks, Committed(s, v, m), w) && Held(Committed(s, v, m), w.id) == Held(s, w.id)
  {
    hide AllocKey, VolumeKey, EncodeVolume, EncodeAlloc, DecodeAlloc, BlocksOf, Sound, SoundMeta;
    KeysDistinct(v.id, w.id);
    KeysDistinct(w.id, v.id);
  }

  lemma CommitRecords(disks: Disks, s: VmState, v: Volume, m: AllocMeta)
    requires Sound(v) && SoundMeta(disks, v, m) && DecodeAlloc(EncodeAlloc(m)) == m
    ensures OnRecord(disks, Committed(s, v, m), v) && Held(Committed(s, v, m), v.id) == BlocksOf(m.extents)
  {
    hide AllocKey, VolumeKey, EncodeVolume, EncodeAlloc, DecodeAlloc, BlocksOf, SoundMeta;
    KeysDistinct(v.id, v.id);
  }

  lemma CommitKeepsInv(disks: Disks, s: VmState, v: Volume, m: AllocMeta)
    requires Inv(disks, s)
    requires Sound(v) && SoundMeta(disks, v, m) && DecodeAlloc(EncodeAlloc(m)) == m
    requires VolumeKey(v.id) !in s.store && AllocKey(v.id) !in s.store
    requires BlocksOf(m.extents) !! s.handedOut && |v.replicas| == MAX_REPLICAS
    ensures Inv(disks, Committed(s, v, m))
  {
    hide AllocKey, VolumeKey, EncodeVolume, EncodeAlloc, DecodeAlloc, BlocksOf, Sound, SoundMeta, OnRecord, Held;
    var s' := Committed(s, v, m);
    CommitRecords(disks, s, v, m);
    forall w <- s.volumes
      ensures w.id != v.id && OnRecord(disks, s', w) && Held(s', w.id) == Held(s, w.id)
    {
      CommitKeepsRecords(disks, s, v, m, w);
    }
    assert v in s'.volumes;
    assert forall w <- s.volumes :: w in s'.volumes;
    assert forall w <- s'.volumes :: w == v || w in s.volumes;
    assert NoStrangers(s') by {
      forall k <- s'.store
        ensures Claimed(s', k)
      {
        if k in s.store {
          assert Claimed(s, k);
          var w :| w in s.volumes && (k == VolumeKey(w.id) || k == AllocKey(w.id));
        }
      }
    }
    assert SpaceIsHeld(s') by {
      forall b
        ensures b in s'.handedOut <==> exists w <- s'.volumes :: b in Held(s', w.id)
      {
        if b in s.handedOut {
          var w :| w in s.volumes && b in Held(s, w.id);
        }
      }
    }
    assert HeldApart(s') by {
      assert forall w <- s.volumes :: Held(s, w.id) <= s.handedOut;
    }
  }

  // ---------------------------------------------------------------- deletion

  lemma DeleteKeepsRecords(disks: Disks, s: VmState, id: Uuid, w: Volume)
    requires w.id != id && OnRecord(disks, s, w)
    ensures OnRecord(disks, DeleteOutcome(s, id).0, w) && Held(DeleteOutcome(s, id).0, w.id) == Held(s, w.id)
  {
    hide AllocKey, VolumeKey, EncodeVolume, DecodeAlloc, BlocksOf, Sound, SoundMeta;
    KeysDistinct(id, w.id);
    KeysDistinct(w.id, id);
  }

  lemma DeleteKeepsInv(disks: Disks, s: VmState, id: Uuid)
    requires Inv(disks, s)
    ensures Inv(disks, DeleteOutcome(s, id).0)
  {
    hide AllocKey, VolumeKey, BlocksOf, OnRecord;
    var i := IndexOf(s.volumes, id);
    if id != NULL_UUID && i < |s.volumes| {
      var s' := DeleteOutcome(s, id).0;
      Survivors(s.volumes, i);
      hide IndexOf, DistinctIds;
      assert s'.handedOut == s.handedOut - Held(s, id);
      assert s'.store == s.store - {AllocKey(id), VolumeKey(id)};
      forall w <- s'.volumes
        ensures OnRecord(disks, s', w) && Held(s', w.id) == Held(s, w.id)
      {
        DeleteKeepsRecords(disks, s, id, w);
      }
      RemainderInv(disks, s, s', id, s.volumes[i]);
    }
  }

  lemma RemainderInv(disks: Disks, s: VmState, s': VmState, id: Uuid, gone: Volume)
    requires Inv(disks, s) && DistinctIds(s'.volumes)
    requires gone in s.volumes && gone.id == id
    requires forall w <- s'.volumes :: w in s.volumes && w.id != id && OnRecord(disks, s', w) && Held(s', w.id) == Held(s, w.id)
    requires forall w <- s.volumes :: w.id != id ==> w in s'.volumes
    requires s'.handedOut == s.handedOut - Held(s, id)
    requires s'.store == s.store - {AllocKey(id), VolumeKey(id)}
    ensures Inv(disks, s')
  {
    hide AllocKey, VolumeKey, OnRecord, Held;
    assert NoStrangers(s') by {
      forall k <- s'.store
        ensures Claimed(s', k)
      {
        assert Claimed(s, k);
        var w :| w in s.volumes && (k == VolumeKey(w.id) || k == AllocKey(w.id));
      }
    }
    assert SpaceIsHeld(s') by {
      forall b
        ensures b in s'.handedOut <==> exists w <- s'.volumes :: b in Held(s', w.id)
      {
        if b in s'.handedOut {
          var w :| w in s.volumes && b in Held(s, w.id);
        }
      }
    }
  }

  /** What is left after taking out one of several volumes with distinct ids. */
  lemma Survivors(volumes: seq<Volume>, i: nat)
    requires i < |volumes| && DistinctIds(volumes)
    ensures var rest := volumes[..i] + volumes[i + 1..];
      && DistinctIds(rest)
      && (forall w <- rest :: w in volumes && w.id != volumes[i].id)
      && (forall w <- volumes :: w.id != volumes[i].id ==> w in rest)
  {
    var rest := volumes[..i] + volumes[i + 1..];
    forall k | 0 <= k < |rest|
      ensures rest[k] in volumes && rest[k].id != volumes[i].id
    {
      assert rest[k] == volumes[if k < i then k else k + 1];
    }
    forall k | 0 <= k < |volumes| && k != i
      ensures volumes[k] in rest
    {
      assert rest[if k < i then k else k - 1] == volumes[k];
    }
  }

  // ---------------------------------------------------------------- runs

  datatype Op = CreateOp(req: CreateRequest, env: Answers) | DeleteOp(id: Uuid)

  function Step(s: VmState, op: Op): VmState {
    match op
    case CreateOp(req, env) => CreateOutcome(s, req, env).0
    case DeleteOp(id) => DeleteOutcome(s, id).0
  }

  function Run(s: VmState, ops: seq<Op>): VmState {
    if ops == [] then s else Step(Run(s, ops[..|ops| - 1]), ops[|ops| - 1])
  }

  /** The surroundings keep their contract at every creation of the run. */
  ghost predicate Admissible(disks: Disks, s: VmState, ops: seq<Op>) {
    ops != [] ==>
      && Admissible(disks, s, ops[..|ops| - 1])
      && var op := ops[|ops| - 1];
      op.CreateOp? ==> Contract(disks, Run(s, ops[..|ops| - 1]), op.req, op.env)
  }

  const EMPTY: VmState := VmState([], map[], {})

  /** The other volumes, in their order. */
  function Without(volumes: seq<Volume>, id: Uuid): seq<Volume> {
    if volumes == [] then []
    else if volumes[0].id == id then Without(volumes[1..], id)
    else [volumes[0]] + Without(volumes[1..], id)
  }

  lemma {:induction false} WithoutStranger(volumes: seq<Volume>, id: Uuid)
    requires forall i :: 0 <= i < |volumes| ==> volumes[i].id != id
    ensures Without(volumes, id) == volumes
  {
    if volumes != [] {
      WithoutStranger(volumes[1..], id);
    }
  }

  lemma {:induction false} WithoutOne(volumes: seq<Volume>, i: nat)
    requires i < |volumes| && DistinctIds(volumes)
    ensures Without(volumes, volumes[i].id) == volumes[..i] + volumes[i + 1..]
  {
    if i == 0 {
      WithoutStranger(volumes[1..], volumes[0].id);
      assert volumes[..0] + volumes[1..] == volumes[1..];
    } else {
      WithoutOne(volumes[1..], i - 1);
      assert volumes[..i] == [volumes[0]] + volumes[1..][..i - 1];
      assert volumes[1..][i..] == volumes[i + 1..];
    }
  }

  /**
   Deletion of a listed volume succeeds and takes away exactly that volume: the others stay listed in order, the store
   loses exactly its two records, which were there, and the disk groups get back exactly the space it held.
   */
  lemma DeleteTakesExactlyThatVolume(disks: Disks, s: VmState, id: Uuid)
    requires Inv(disks, s) && exists v <- s.volumes :: v.id == id
    ensures var (s', r) := DeleteOutcome(s, id);
      && r == Ok(())
      && s'.volumes == Without(s.volumes, id)
      && AllocKey(id) in s.store && VolumeKey(id) in s.store && s'.store == s.store - {AllocKey(id), VolumeKey(id)}
      && Held(s, id) <= s.handedOut && s'.handedOut == s.handedOut - Held(s, id)
  {
    hide AllocKey, VolumeKey, BlocksOf, Without, Inv, DistinctIds, IndexOf;
    var v :| v in s.volumes && v.id == id;
    ListedHasAll(disks, s, v);
    ListedAt(s.volumes, v);
    WithoutOne(s.volumes, IndexOf(s.volumes, id));
  }

  lemma ListedAt(volumes: seq<Volume>, v: Volume)
    requires v in volumes
    ensures IndexOf(volumes, v.id) < |volumes|
  {
    var k :| 0 <= k < |volumes| && volumes[k] == v;
    assert volumes[k].id == v.id;
  }

  /** What the invariant says of one listed volume. */
  lemma ListedHasAll(disks: Disks, s: VmState, v: Volume)
    requires Inv(disks, s) && v in s.volumes
    ensures v.id != NULL_UUID && AllocKey(v.id) in s.store && VolumeKey(v.id) in s.store
    ensures Held(s, v.id) <= s.handedOut && DistinctIds(s.volumes)
  {
    hide AllocKey, VolumeKey, Held, SoundMeta;
    assert OnRecord(disks, s, v);
  }

  /** Deletion of anything else changes nothing. */
  lemma DeleteOfStranger(s: VmState, id: Uuid)
    requires forall v <- s.volumes :: v.id != id
    ensures DeleteOutcome(s, id) == (s, Err(if id == NULL_UUID then InvalidParam else NotFound))
  {
    forall i | 0 <= i < |s.volumes|
      ensures s.volumes[i].id != id
    {
      assert s.volumes[i] in s.volumes;
    }
  }

  /** After any run that ends in a deletion, the volume is gone: from the list, from the store, and from the disks. */
  lemma DeletedIsGone(disks: Disks, ops: seq<Op>, id: Uuid)
    requires Admissible(disks, EMPTY, ops)
    ensures var s, s' := Run(EMPTY, ops), Run(EMPTY, ops + [DeleteOp(id)]);
      && s' == DeleteOutcome(s, id).0
      && (forall v <- s'.volumes :: v.id != id)
      && AllocKey(id) !in s'.store && VolumeKey(id) !in s'.store
      && s'.handedOut !! Held(s, id)
  {
    hide AllocKey, VolumeKey, BlocksOf, Inv, DeleteOutcome;
    var s, all := Run(EMPTY, ops), ops + [DeleteOp(id)];
    assert all[..|all| - 1] == ops;
    RunKeepsInv(disks, ops);
    DeletedFrom(disks, s, id);
  }

  lemma DeletedFrom(disks: Disks, s: VmState, id: Uuid)
    requires Inv(disks, s)
    ensures var s' := DeleteOutcome(s, id).0;
      && (forall v <- s'.volumes :: v.id != id)
      && AllocKey(id) !in s'.store && VolumeKey(id) !in s'.store
      && s'.handedOut !! Held(s, id)
  {
    hide DeleteOutcome, Held;
    if exists v <- s.volumes :: v.id == id {
      hide AllocKey, VolumeKey;
      DeleteTakesExactlyThatVolume(disks, s, id);
      WithoutHasNot(s.volumes, id);
    } else {
      DeleteOfStranger(s, id);
      NoRecordOfStranger(disks, s, id);
    }
  }

  lemma {:induction false} WithoutHasNot(volumes: seq<Volume>, id: Uuid)
    ensures forall v <- Without(volumes, id) :: v.id != id
  {
    if volumes != [] {
      WithoutHasNot(volumes[1..], id);
    }
  }

  lemma NoRecordOfStranger(disks: Disks, s: VmState, id: Uuid)
    requires Inv(disks, s) && forall v <- s.volumes :: v.id != id
    ensures AllocKey(id) !in s.store && VolumeKey(id) !in s.store && Held(s, id) == {}
  {
    hide AllocKey, VolumeKey;
    if AllocKey(id) in s.store {
      assert Claimed(s, AllocKey(id));
      var v :| v in s.volumes && (AllocKey(id) == VolumeKey(v.id) || AllocKey(id) == AllocKey(v.id));
      KeysDistinct(id, v.id);
      KeysDistinct(v.id, id);
      assert false;
    }
    if VolumeKey(id) in s.store {
      assert Claimed(s, VolumeKey(id));
      var v :| v in s.volumes && (VolumeKey(id) == VolumeKey(v.id) || VolumeKey(id) == AllocKey(v.id));
      KeysDistinct(id, v.id);
      KeysDistinct(v.id, id);
      assert false;
    }
    EmptyExtents();
  }

  /** Deleting the volume just created takes back everything creation did. */
  lemma DeleteUndoesCreate(disks: Disks, s: VmState, req: CreateRequest, env: Answers)
    requires Inv(disks, s) && Contract(disks, s, req, env) && Refusal(s.volumes, req, env).None?
    ensures DeleteOutcome(CreateOutcome(s, req, env).0, env.newId) == (s, Ok(()))
  {
    hide AllocKey, VolumeKey, BlocksOf, EncodeAlloc, EncodeVolume, Refusal, SoundMeta, NewVolume, NewMeta, Inv, Committed, RecordedExtents;
    NotRefused(s.volumes, req, env);
    NewMetaFits(disks, s, req, env);
    var v, m := NewVolume(req, env), NewMeta(req, env);
    ListRestored(disks, s, v, m);
    StoreRestored(s, v, m);
  }

  lemma ListRestored(disks: Disks, s: VmState, v: Volume, m: AllocMeta)
    requires Inv(disks, s) && |v.replicas| == MAX_REPLICAS && VolumeKey(v.id) !in s.store
    ensures var after, n := Committed(s, v, m).volumes, |s.volumes|;
      |after| == n + 1 && IndexOf(after, v.id) == n && after[..n] + after[n + 1..] == s.volumes
  {
    hide AllocKey, VolumeKey, BlocksOf, EncodeAlloc, EncodeVolume;
    forall w <- s.volumes
      ensures w.id != v.id
    {
      assert OnRecord(disks, s, w);
    }
    LastIndex(s.volumes, v);
  }

  lemma StoreRestored(s: VmState, v: Volume, m: AllocMeta)
    requires |v.replicas| == MAX_REPLICAS && VolumeKey(v.id) !in s.store && AllocKey(v.id) !in s.store
    requires |m.extents| <= MAX_EXTENTS_PER_VOLUME && BlocksOf(m.extents) !! s.handedOut
    ensures var after := Committed(s, v, m);
      && after.store - {AllocKey(v.id), VolumeKey(v.id)} == s.store
      && after.handedOut - BlocksOf(RecordedExtents(after.store, v.id)) == s.handedOut
  {
    hide AllocKey, VolumeKey, BlocksOf, EncodeAlloc, EncodeVolume, DecodeAlloc;
    KeysDistinct(v.id, v.id);
    AllocRoundTrip(m);
    assert RecordedExtents(Committed(s, v, m).store, v.id) == m.extents;
  }

  lemma LastIndex(volumes: seq<Volume>, v: Volume)
    requires forall w <- volumes :: w.id != v.id
    ensures IndexOf(volumes + [v], v.id) == |volumes|
  {
    forall j | 0 <= j < |volumes|
      ensures (volumes + [v])[j].id != v.id
    {
      assert volumes[j] in volumes;
    }
    assert (volumes + [v])[|volumes|] == v;
  }

  /** Over every run, with a failure possible at every step of every creation, the invariant holds. */
  lemma {:induction false} RunKeepsInv(disks: Disks, ops: seq<Op>)
    requires Admissible(disks, EMPTY, ops)
    ensures Inv(disks, Run(EMPTY, ops))
  {
    if ops != [] {
      var s, op := Run(EMPTY, ops[..|ops| - 1]), ops[|ops| - 1];
      RunKeepsInv(disks, ops[..|ops| - 1]);
      match op {
        case CreateOp(req, env) => CreateKeepsInv(disks, s, req, env);
        case DeleteOp(id) => DeleteKeepsInv(disks, s, id);
      }
    }
  }

  // ---------------------------------------------------------------- sizes

  /** A creation that goes through gives at least the size asked for, or, when rounding up wraps, a volume of no blocks. */
  lemma CreatedSizeIffNoWrap(s: VmState, req: CreateRequest, env: Answers)
    requires Refusal(s.volumes, req, env).None?
    ensures var after := CreateOutcome(s, req, env).0.volumes;
      && |after| == |s.volumes| + 1
      && var v := after[|s.volumes|];
      && v.sizeBytes == v.numBlocks * v.blockSize
      && (v.sizeBytes >= req.sizeBytes <==> req.sizeBytes + req.blockSize - 1 < TWO64)
      && (v.sizeBytes < req.sizeBytes ==> v.numBlocks == 0)
  {
    hide BlockCount, BlocksOf, AllocKey, VolumeKey, EncodeVolume, EncodeAlloc, InitialState, Slots, Chosen, Refusal, Wrap64;
    NotRefused(s.volumes, req, env);
    RoundsUpIffNoWrap(req.sizeBytes, req.blockSize);
  }

  /** The largest size there is, asked for on an empty node where every step succeeds. */
  lemma HugeVolumeIsEmpty(group: Uuid, id: Uuid, node: Node)
    requires group != NULL_UUID
    ensures var req := CreateRequest("huge", TWO64 - 1, group, 4096, true, 0);
      var env := Answers(Some(Online), true, id, Ok(node), 0, Ok([]), Ok([]), true, None, None, None, true);
      var (after, r) := CreateOutcome(EMPTY, req, env);
      r == Ok(id) && |after.volumes| == 1 && after.volumes[0].numBlocks == 0
  {
    var req := CreateRequest("huge", TWO64 - 1, group, 4096, true, 0);
    var env := Answers(Some(Online), true, id, Ok(node), 0, Ok([]), Ok([]), true, None, None, None, true);
    CreatedSizeIffNoWrap(EMPTY, req, env);
  }

  // ---------------------------------------------------------------- names

  ghost predicate UniqueNames(volumes: seq<Volume>) {
    forall i, j :: 0 <= i < j < |volumes| ==> volumes[i].name != volumes[j].name
  }

  /**
   The check at creation keeps names unique exactly when the name fits the buffer, or is too long but its first 255
   characters are no listed name.
   */
  lemma CreateKeepsNamesIff(s: VmState, req: CreateRequest, env: Answers)
    requires UniqueNames(s.volumes) && Refusal(s.volumes, req, env).None?
    ensures UniqueNames(CreateOutcome(s, req, env).0.volumes) <==>
            |req.name| < MAX_NAME_LEN || forall v <- s.volumes :: v.name != req.name[..MAX_NAME_LEN - 1]
  {
    NamesBehindNewOne(s, req, env);
    NotRefused(s.volumes, req, env);
    if |req.name| < MAX_NAME_LEN {
      forall v <- s.volumes
        ensures v.name != req.name
      {
        assert !SameName(v.name, req.name);
      }
    }
  }

  lemma NamesBehindNewOne(s: VmState, req: CreateRequest, env: Answers)
    requires UniqueNames(s.volumes) && Refusal(s.volumes, req, env).None?
    ensures UniqueNames(CreateOutcome(s, req, env).0.volumes) <==>
            forall v <- s.volumes :: v.name != Clip(req.name, MAX_NAME_LEN)
  {
    var after := CreateOutcome(s, req, env).0.volumes;
    var n := |s.volumes|;
    assert after[n].name == Clip(req.name, MAX_NAME_LEN);
    if UniqueNames(after) {
      forall v <- s.volumes
        ensures v.name != after[n].name
      {
        var i :| 0 <= i < n && s.volumes[i] == v;
        assert after[i] == v;
      }
    }
  }

  /** For names of at most 255 bytes the check at creation is enough. */
  lemma ShortNamesStayUnique(s: VmState, req: CreateRequest, env: Answers)
    requires UniqueNames(s.volumes) && |req.name| < MAX_NAME_LEN
    ensures UniqueNames(CreateOutcome(s, req, env).0.volumes)
  {
    hide Committed, NewVolume, NewMeta;
    if Refusal(s.volumes, req, env).None? {
      CreateKeepsNamesIff(s, req, env);
    }
  }

  /** A longer name gets past the check every time: creating it twice gives two volumes of one name. */
  lemma LongNameIsTakenTwice(s: VmState, req: CreateRequest, env: Answers, env': Answers)
    requires |req.name| >= MAX_NAME_LEN
    requires Refusal(s.volumes, req, env).None? && Refusal([], req, env').None?
    requires forall v <- s.volumes :: |v.name| < MAX_NAME_LEN
    ensures var s1 := CreateOutcome(s, req, env).0;
      && Refusal(s1.volumes, req, env').None?
      && !UniqueNames(CreateOutcome(s1, req, env').0.volumes)
  {
    hide BlockCount, BlocksOf, AllocKey, VolumeKey, EncodeVolume, EncodeAlloc, InitialState, Slots, Chosen;
    var s1 := CreateOutcome(s, req, env).0;
    var s2 := CreateOutcome(s1, req, env').0;
    var n := |s.volumes|;
    assert forall v <- s1.volumes :: |v.name| < MAX_NAME_LEN;
    assert s2.volumes[n].name == s2.volumes[n + 1].name;
  }

  lemma {:induction false} RunKeepsNames(ops: seq<Op>)
    requires forall op <- ops :: op.CreateOp? ==> |op.req.name| < MAX_NAME_LEN
    ensures UniqueNames(Run(EMPTY, ops).volumes)
  {
    hide CreateOutcome, Refusal;
    if ops != [] {
      var s, op := Run(EMPTY, ops[..|ops| - 1]), ops[|ops| - 1];
      RunKeepsNames(ops[..|ops| - 1]);
      if op.CreateOp? {
        ShortNamesStayUnique(s, op.req, op.env);
      } else {
        DeleteKeepsNames(s, op.id);
      }
    }
  }

  lemma DeleteKeepsNames(s: VmState, id: Uuid)
    requires UniqueNames(s.volumes)
    ensures UniqueNames(DeleteOutcome(s, id).0.volumes)
  {
    hide AllocKey, VolumeKey, BlocksOf, RecordedExtents;
  }

  // ---------------------------------------------------------------- what reachable states are good for

  lemma DisjointBlocksAreApart(e: Extent, e': Extent, a: seq<Extent>, b: seq<Extent>)
    requires e in a && e' in b && BlocksOf(a) !! BlocksOf(b)
    ensures Apart(e, e')
  {
    ApartOrShared(e, e', a, b);
  }

  lemma ApartOrShared(e: Extent, e': Extent, a: seq<Extent>, b: seq<Extent>)
    requires e in a && e' in b
    ensures Apart(e, e') || BlocksOf(a) * BlocksOf(b) != {}
  {
    if !Apart(e, e') {
      var k := if e.startBlock <= e'.startBlock then e'.startBlock else e.startBlock;
      assert PhysBlock(e.disk, k) in BlocksOf(a) * BlocksOf(b);
    }
  }

  lemma HeldIsOnRecord(s: VmState, id: Uuid)
    ensures Held(s, id) == BlocksOf(MetaOf(s, id).extents)
  {
    hide BlocksOf, DecodeAlloc, AllocKey;
  }

  /** Two listed volumes have sound allocations that share no disk block. */
  lemma ListedVolumesApart(disks: Disks, s: VmState, v: Volume, w: Volume)
    requires Inv(disks, s) && v in s.volumes && w in s.volumes && v.id != w.id
    ensures SoundMeta(disks, v, MetaOf(s, v.id)) && SoundMeta(disks, w, MetaOf(s, w.id))
    ensures forall e <- MetaOf(s, v.id).extents, e' <- MetaOf(s, w.id).extents :: Apart(e, e')
  {
    hide Sound, SoundMeta, BlocksOf, AllocKey, VolumeKey, EncodeVolume, Apart, MetaOf, Held, NoStrangers, SpaceIsHeld;
    assert OnRecord(disks, s, v) && OnRecord(disks, s, w);
    var m, m' := MetaOf(s, v.id), MetaOf(s, w.id);
    HeldIsOnRecord(s, v.id);
    HeldIsOnRecord(s, w.id);
    forall e <- m.extents, e' <- m'.extents
      ensures Apart(e, e')
    {
      DisjointBlocksAreApart(e, e', m.extents, m'.extents);
    }
  }

  /**
   After any run, a direct write to a thick volume changes that volume's flat view and nothing else: no byte of any
   other listed thick volume moves.
   */
  lemma ReachableWriteIsIsolated(disks: Disks, ops: seq<Op>, v: Volume, w: Volume, off: uint64, data: seq<byte>, c: Contents)
    requires Admissible(disks, EMPTY, ops)
    requires var s := Run(EMPTY, ops); v in s.volumes && w in s.volumes && !v.thin && !w.thin && v.id != w.id
    requires Fits(disks, c) && |data| < TWO64
    requires Direct(disks, MetaOf(Run(EMPTY, ops), v.id), off, |data|)
    ensures var s := Run(EMPTY, ops);
      && LaidOut(disks, MetaOf(s, v.id)) && off + |data| <= |View(disks, MetaOf(s, v.id), c)|
      && var plan := Plan(disks, v, Some(MetaOf(s, v.id)), off, |data|);
      && plan.Ok? && ValidRequest(disks, plan.value) && Length(disks, plan.value) == |data|
      && LaidOut(disks, MetaOf(s, w.id))
      && View(disks, MetaOf(s, v.id), WriteOutcome(disks, c, plan, data)) == Splice(View(disks, MetaOf(s, v.id), c), off, data)
      && View(disks, MetaOf(s, w.id), WriteOutcome(disks, c, plan, data)) == View(disks, MetaOf(s, w.id), c)
  {
    hide Plan, LaidOut, Home, Separate, Inv, MetaOf, Run;
    var s := Run(EMPTY, ops);
    RunKeepsInv(disks, ops);
    ListedVolumesApart(disks, s, v, w);
    DirectWrite(disks, v, MetaOf(s, v.id), off, data, c);
    OtherVolumesKeep(disks, v, MetaOf(s, v.id), off, data, c, MetaOf(s, w.id));
  }
}
