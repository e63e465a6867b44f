/**
 Creating and deleting volumes. Creation works in steps, any of which may fail, and undoes what earlier steps did;
 the contract of `VolumeManager.Create` is that all this amounts to doing everything or nothing.
 */
module Lifecycle {
  import opened MachineInts
  import opened Outcomes
  import opened Arith
  import opened Storage
  import opened Metadata
  import opened Replicas

  datatype PhysBlock = PhysBlock(disk: Uuid, block: nat)

  /** The disk blocks a list of extents occupies. */
  function BlocksOf(extents: seq<Extent>): set<PhysBlock> {
    set e, k | e in extents && e.startBlock <= k < e.startBlock + e.numBlocks :: PhysBlock(e.disk, k)
  }

  /** The managed list, the key-value store, and the space the disk groups have handed out. */
  datatype VmState = VmState(volumes: seq<Volume>, store: map<string, Record>, handedOut: set<PhysBlock>)

  datatype CreateRequest = CreateRequest(
    name: string,
    sizeBytes: uint64,
    group: Uuid,
    blockSize: uint32,
    thin: bool,
    ftt: uint32)

  /** What the surroundings answer at each step: the disk group, memory, the cluster, the allocator, the store. */
  datatype Answers = Answers(
    groupState: Option<State>,
    volumeMemory: bool,
    newId: Uuid,
    localNode: Result<Node>,
    now: uint64,
    knownNodes: Result<seq<Node>>,
    allocation: Result<seq<Extent>>,
    metaMemory: bool,
    serializeMeta: Option<Error>,
    putMeta: Option<Error>,
    saveVolume: Option<Error>,
    listMemory: bool)

  /** `strncmp` over the name buffer's size finds no difference. */
  predicate SameName(a: string, b: string) {
    a[..Min(|a|, MAX_NAME_LEN)] == b[..Min(|b|, MAX_NAME_LEN)]
  }

  lemma SameNameMeaning(a: string, b: string)
    ensures SameName(a, b) <==> a == b || (|a| >= 256 && |b| >= 256 && a[..256] == b[..256])
  {
    assert |a| < 256 ==> a[..|a|] == a;
    assert |b| < 256 ==> b[..|b|] == b;
  }

  predicate LegalRequest(req: CreateRequest) {
    req.sizeBytes != 0 && req.group != NULL_UUID && (req.blockSize == 512 || req.blockSize == 4096) && req.ftt < MAX_REPLICAS
  }

  // ---------------------------------------------------------------- what creation should amount to

  /** The first obstacle, in the order in which the steps meet them. */
  function Refusal(volumes: seq<Volume>, req: CreateRequest, env: Answers): Option<Error> {
    if !LegalRequest(req) then Some(InvalidParam)
    else if exists v <- volumes :: SameName(v.name, req.name) then Some(AlreadyExists)
    else if env.groupState.None? then Some(NotFound)
    else if env.groupState.value != Online then Some(ResourceUnavailable)
    else if !env.volumeMemory then Some(OutOfMemory)
    else if env.localNode.Err? then Some(env.localNode.error)
    else if !req.thin && env.allocation.Err? then Some(env.allocation.error)
    else if !req.thin && env.allocation.value == [] then Some(Internal)
    else if !env.metaMemory then Some(OutOfMemory)
    else if !req.thin && |env.allocation.value| > MAX_EXTENTS_PER_VOLUME then Some(TooManyExtents)
    else if env.serializeMeta.Some? then env.serializeMeta
    else if env.putMeta.Some? then env.putMeta
    else if env.saveVolume.Some? then env.saveVolume
    else if !env.listMemory then Some(OutOfMemory)
    else None
  }

  /** Blocks needed for a size: rounded up, in 64-bit arithmetic. */
  function BlockCount(sizeBytes: uint64, blockSize: uint32): (n: uint64)
    requires blockSize > 0
  {
    DivBounds(Wrap64(sizeBytes + blockSize - 1), blockSize);
    Wrap64(sizeBytes + blockSize - 1) / blockSize
  }

  /** The volume gets at least the size asked for exactly when rounding up does not wrap. */
  lemma RoundsUpIffNoWrap(sizeBytes: uint64, blockSize: uint32)
    requires blockSize > 0 && sizeBytes > 0
    ensures BlockCount(sizeBytes, blockSize) * blockSize >= sizeBytes <==> sizeBytes + blockSize - 1 < TWO64
    ensures BlockCount(sizeBytes, blockSize) * blockSize < TWO64
    ensures sizeBytes + blockSize - 1 >= TWO64 ==> BlockCount(sizeBytes, blockSize) == 0
    ensures sizeBytes + blockSize - 1 < TWO64 ==> BlockCount(sizeBytes, blockSize) * blockSize < sizeBytes + blockSize
  {
    var w := Wrap64(sizeBytes + blockSize - 1);
    DivMod(w, blockSize);
    if sizeBytes + blockSize - 1 >= TWO64 {
      assert w == sizeBytes + blockSize - 1 - TWO64;
      DivUnique(w, blockSize, 0);
    }
  }

  function NewVolume(req: CreateRequest, env: Answers): (v: Volume)
    requires LegalRequest(req) && env.localNode.Ok?
    ensures |v.replicas| == MAX_REPLICAS
  {
    var n := BlockCount(req.sizeBytes, req.blockSize);
    var size := Wrap64(n * req.blockSize);
    var local := env.localNode.value;
    var remotes := Chosen(env.knownNodes, local.id, req.ftt);
    var v := Volume(env.newId, Clip(req.name, MAX_NAME_LEN), size, req.blockSize, n, Unknown, req.group, req.thin,
                    if req.thin then 0 else size, |remotes|, |remotes| + 1, Slots(local, env.now, remotes));
    v.(state := InitialState(v))
  }

  function NewMeta(req: CreateRequest, env: Answers): AllocMeta
    requires LegalRequest(req) && (!req.thin ==> env.allocation.Ok?)
  {
    AllocMeta(env.newId, req.group, if req.thin then [] else env.allocation.value,
              BlockCount(req.sizeBytes, req.blockSize), req.blockSize)
  }

  /** The state with one more volume in it. */
  function Committed(s: VmState, v: Volume, m: AllocMeta): VmState
    requires |v.replicas| == MAX_REPLICAS
  {
    VmState(s.volumes + [v],
            s.store[AllocKey(v.id) := AllocRecord(EncodeAlloc(m))][VolumeKey(v.id) := VolumeRecord(EncodeVolume(v))],
            s.handedOut + BlocksOf(m.extents))
  }

  function CreateOutcome(s: VmState, req: CreateRequest, env: Answers): (VmState, Result<Uuid>) {
    match Refusal(s.volumes, req, env)
    case Some(e) => (s, Err(e))
    case None => (Committed(s, NewVolume(req, env), NewMeta(req, env)), Ok(env.newId))
  }

  /** Nothing stands in the way. */
  ghost predicate Permitted(volumes: seq<Volume>, req: CreateRequest, env: Answers) {
    && req.sizeBytes > 0 && req.group != NULL_UUID && req.blockSize in {512, 4096} && req.ftt <= 2
    && (forall v <- volumes :: !SameName(v.name, req.name))
    && env.groupState == Some(Online) && env.localNode.Ok?
    && (req.thin || (env.allocation.Ok? && 1 <= |env.allocation.value| <= MAX_EXTENTS_PER_VOLUME))
    && env.volumeMemory && env.metaMemory && env.listMemory
    && env.serializeMeta == env.putMeta == env.saveVolume == None
  }

  lemma RefusedIffNotPermitted(volumes: seq<Volume>, req: CreateRequest, env: Answers)
    ensures Refusal(volumes, req, env).None? <==> Permitted(volumes, req, env)
  {
  }

  /** What each step would object, in order. */
  ghost function Objections(volumes: seq<Volume>, req: CreateRequest, env: Answers): seq<Option<Error>> {
    [ if req.sizeBytes == 0 || req.group == NULL_UUID || req.blockSize !in {512, 4096} || req.ftt > 2 then Some(InvalidParam) else None,
      if exists v <- volumes :: SameName(v.name, req.name) then Some(AlreadyExists) else None,
      if env.groupState == None then Some(NotFound) else if env.groupState != Some(Online) then Some(ResourceUnavailable) else None,
      if env.volumeMemory then None else Some(OutOfMemory),
      if env.localNode.Err? then Some(env.localNode.error) else None,
      if req.thin then None else if env.allocation.Err? then Some(env.allocation.error)
        else if env.allocation == Ok([]) then Some(Internal) else None,
      if env.metaMemory then None else Some(OutOfMemory),
      if !req.thin && env.allocation.Ok? && |env.allocation.value| > MAX_EXTENTS_PER_VOLUME then Some(TooManyExtents) else None,
      env.serializeMeta,
      env.putMeta,
      env.saveVolume,
      if env.listMemory then None else Some(OutOfMemory) ]
  }

  /** A refusal is the first objection. */
  lemma RefusalIsFirstObjection(volumes: seq<Volume>, req: CreateRequest, env: Answers, k: nat)
    requires var os := Objections(volumes, req, env); k < |os| && os[k].Some? && forall j :: 0 <= j < k ==> os[j] == None
    ensures Refusal(volumes, req, env) == Objections(volumes, req, env)[k]
  {
    var os := Objections(volumes, req, env);
    assert forall j :: 0 <= j < k ==> os[j] == None;
    assert k > 0 ==> os[0] == None;
    assert k > 1 ==> os[1] == None;
    assert k > 2 ==> os[2] == None;
    assert k > 3 ==> os[3] == None;
    assert k > 4 ==> os[4] == None;
    assert k > 5 ==> os[5] == None;
    assert k > 6 ==> os[6] == None;
    assert k > 7 ==> os[7] == None;
    assert k > 8 ==> os[8] == None;
    assert k > 9 ==> os[9] == None;
    assert k > 10 ==> os[10] == None;
  }

  /** The volume is the one that was asked for: least number of blocks that hold the size, unless that sum wraps. */
  ghost predicate AsRequested(req: CreateRequest, env: Answers, v: Volume)
    requires env.localNode.Ok?
  {
    && v.id == env.newId && v.name == req.name[..Min(|req.name|, MAX_NAME_LEN - 1)]
    && v.blockSize == req.blockSize && v.group == req.group && v.thin == req.thin
    && v.sizeBytes == v.numBlocks * v.blockSize
    && (req.sizeBytes + req.blockSize - 1 < TWO64 ==> req.sizeBytes <= v.sizeBytes < req.sizeBytes + req.blockSize)
    && v.allocatedBytes == (if req.thin then 0 else v.sizeBytes)
    && |v.replicas| == MAX_REPLICAS && v.replicaCount == v.ftt + 1 && v.ftt <= req.ftt
    && v.state == (if v.ftt == 0 then Online else Degraded)
    && var local := env.localNode.value;
    && v.replicas[0] == Replica(local.id, Clip(local.ip, MAX_IP_LEN), local.port, Online, env.now)
    && (forall i :: v.replicaCount <= i < MAX_REPLICAS ==> v.replicas[i] == EMPTY_SLOT)
    && (env.knownNodes.Err? ==> v.ftt == 0)
    && (env.knownNodes.Ok? ==> exists pick :: |pick| == v.ftt && Picks(env.knownNodes.value, local.id, req.ftt, v.replicas, pick))
  }

  lemma NewVolumeIsAsRequested(req: CreateRequest, env: Answers)
    requires LegalRequest(req) && env.localNode.Ok?
    ensures AsRequested(req, env, NewVolume(req, env))
  {
    hide Picks, Slots, Chosen, BlockCount, Wrap64;
    var local := env.localNode.value;
    var remotes := Chosen(env.knownNodes, local.id, req.ftt);
    if env.knownNodes.Ok? {
      var pick := SlotsArePicks(local, env.now, env.knownNodes.value, req.ftt);
    } else {
      NobodyChosen(env.knownNodes, local.id, req.ftt);
    }
    SlotsEnds(local, env.now, remotes);
    RoundsUpIffNoWrap(req.sizeBytes, req.blockSize);
  }

  lemma NobodyChosen(known: Result<seq<Node>>, local: Uuid, ftt: nat)
    requires known.Err?
    ensures Chosen(known, local, ftt) == []
  {
  }

  // ---------------------------------------------------------------- what deletion should amount to

  function IndexOf(volumes: seq<Volume>, id: Uuid): (i: nat)
    ensures i <= |volumes|
    ensures i < |volumes| ==> volumes[i].id == id
    ensures forall j :: 0 <= j < i ==> volumes[j].id != id
  {
    if volumes == [] then 0 else if volumes[0].id == id then 0 else IndexOf(volumes[1..], id) + 1
  }

  /** The first volume of that id. */
  ghost predicate IsFirst(volumes: seq<Volume>, id: Uuid, i: int) {
    0 <= i < |volumes| && volumes[i].id == id && forall j :: 0 <= j < i ==> volumes[j].id != id
  }

  /** The extents on record for a volume. */
  function RecordedExtents(store: map<string, Record>, id: Uuid): seq<Extent> {
    if AllocKey(id) in store && store[AllocKey(id)].AllocRecord? then DecodeAlloc(store[AllocKey(id)].alloc).extents else []
  }

  function DeleteOutcome(s: VmState, id: Uuid): (VmState, Result<()>) {
    if id == NULL_UUID then (s, Err(InvalidParam))
    else
      var i := IndexOf(s.volumes, id);
      if i == |s.volumes| then (s, Err(NotFound))
      else
        (VmState(s.volumes[..i] + s.volumes[i + 1..],
                 s.store - {AllocKey(id), VolumeKey(id)},
                 s.handedOut - BlocksOf(RecordedExtents(s.store, id))),
         Ok(()))
  }

  // ---------------------------------------------------------------- the manager

  class VolumeManager {
    var volumes: seq<Volume>
    var store: map<string, Record>
    var handedOut: set<PhysBlock>

    ghost function Abs(): VmState
      reads this
    {
      VmState(volumes, store, handedOut)
    }

    constructor ()
      ensures Abs() == VmState([], map[], {})
    {
      volumes, store, handedOut := [], map[], {};
    }

    /** `xsan_disk_group_allocate_extents`, answering with the extents of its choice. */
    method AllocateExtents(answer: Result<seq<Extent>>) returns (r: Result<seq<Extent>>)
      modifies this`handedOut
      ensures r == answer
      ensures handedOut == if r.Ok? then old(handedOut) + BlocksOf(r.value) else old(handedOut)
    {
      if answer.Ok? {
        handedOut := handedOut + BlocksOf(answer.value);
      }
      r := answer;
    }

    method FreeExtents(extents: seq<Extent>)
      modifies this`handedOut
      ensures handedOut == old(handedOut) - BlocksOf(extents)
    {
      handedOut := handedOut - BlocksOf(extents);
    }

    method NameTaken(name: string) returns (taken: bool)
      ensures taken <==> exists v <- volumes :: SameName(v.name, name)
      ensures taken <==> exists v <- volumes :: v.name == name || (|v.name| >= 256 && |name| >= 256 && v.name[..256] == name[..256])
    {
      forall v <- volumes
        ensures SameName(v.name, name) <==> v.name == name || (|v.name| >= 256 && |name| >= 256 && v.name[..256] == name[..256])
      {
        SameNameMeaning(v.name, name);
      }
      for i := 0 to |volumes|
        invariant forall v <- volumes[..i] :: !SameName(v.name, name)
      {
        if SameName(volumes[i].name, name) {
          return true;
        }
      }
      assert volumes[..|volumes|] == volumes;
      return false;
    }

    /**
     The steps from the allocation record on: each failure undoes the store entries made so far. The extents are
     the caller's to give back.
     */
    method Record(v: Volume, m: AllocMeta, env: Answers) returns (failed: Option<Error>)
      requires |v.replicas| == MAX_REPLICAS
      requires AllocKey(v.id) !in store && VolumeKey(v.id) !in store
      modifies this`store, this`volumes
      ensures failed == if env.serializeMeta.Some? then env.serializeMeta
                        else if env.putMeta.Some? then env.putMeta
                        else if env.saveVolume.Some? then env.saveVolume
                        else if !env.listMemory then Some(OutOfMemory)
                        else None
      ensures failed.Some? ==> store == old(store) && volumes == old(volumes)
      ensures failed.None? ==> volumes == old(volumes) + [v]
      ensures failed.None? ==>
        store == old(store)[AllocKey(v.id) := AllocRecord(EncodeAlloc(m))][VolumeKey(v.id) := VolumeRecord(EncodeVolume(v))]
    {
      hide AllocKey, VolumeKey, EncodeAlloc, EncodeVolume;
      if env.serializeMeta.Some? {
        return env.serializeMeta;
      }
      if env.putMeta.Some? {
        return env.putMeta;
      }
      store := store[AllocKey(v.id) := AllocRecord(EncodeAlloc(m))];
      if env.saveVolume.Some? {
        store := store - {AllocKey(v.id)};
        return env.saveVolume;
      }
      store := store[VolumeKey(v.id) := VolumeRecord(EncodeVolume(v))];
      if !env.listMemory {
        store := store - {AllocKey(v.id)};
        store := store - {VolumeKey(v.id)};
        return Some(OutOfMemory);
      }
      volumes := volumes + [v];
      return None;
    }

    /** `xsan_volume_create`. The allocator hands out free space only, and a generated id is a new one. */
    method Create(req: CreateRequest, env: Answers) returns (r: Result<Uuid>)
      requires env.allocation.Ok? ==> BlocksOf(env.allocation.value) !! handedOut
      requires AllocKey(env.newId) !in store && VolumeKey(env.newId) !in store
      modifies this
      ensures (Abs(), r) == CreateOutcome(old(Abs()), req, env)
      // A failed creation changes nothing, and fails with the first objection.
      ensures r.Err? ==> Abs() == old(Abs())
      ensures var os := Objections(old(volumes), req, env);
        forall k :: 0 <= k < |os| && os[k].Some? && (forall j :: 0 <= j < k ==> os[j] == None) ==> r == Err(os[k].value)
      // One that nothing stands in the way of lists the volume asked for behind the others, and puts it on record.
      ensures r.Ok? <==> Permitted(old(volumes), req, env)
      ensures r.Ok? ==> r.value == env.newId
      ensures r.Ok? ==> |volumes| == |old(volumes)| + 1 && volumes[..|old(volumes)|] == old(volumes)
      ensures r.Ok? ==> var v := volumes[|old(volumes)|];
        var extents := if req.thin then [] else env.allocation.value;
        && AsRequested(req, env, v)
        && store == old(store)[AllocKey(v.id) := AllocRecord(EncodeAlloc(AllocMeta(v.id, req.group, extents, v.numBlocks, req.blockSize)))]
                              [VolumeKey(v.id) := VolumeRecord(EncodeVolume(v))]
        && handedOut == old(handedOut) + BlocksOf(extents)
    {
      hide AllocKey, VolumeKey, BlocksOf, EncodeAlloc, EncodeVolume, Refusal, Objections, Permitted, AsRequested, NewVolume;
      CreateMeaning(Abs(), req, env);
      r := CreateSteps(req, env);
      if r.Ok? {
        assert volumes[..|old(volumes)|] == old(volumes);
      }
    }

    /** Its steps, with everything undone that a failing one leaves behind. */
    method CreateSteps(req: CreateRequest, env: Answers) returns (r: Result<Uuid>)
      requires env.allocation.Ok? ==> BlocksOf(env.allocation.value) !! handedOut
      requires AllocKey(env.newId) !in store && VolumeKey(env.newId) !in store
      modifies this
      ensures (Abs(), r) == CreateOutcome(old(Abs()), req, env)
    {
      hide AllocKey, VolumeKey, BlocksOf, EncodeAlloc, EncodeVolume, SameName, InitialState, Picks, Chosen, Slots, BlockCount, Clip;
      EmptyExtents();
      if req.sizeBytes == 0 || req.group == NULL_UUID || (req.blockSize != 512 && req.blockSize != 4096) ||
         req.ftt >= MAX_REPLICAS
      {
        return Err(InvalidParam);
      }
      var taken := NameTaken(req.name);
      if taken {
        return Err(AlreadyExists);
      }
      if env.groupState.None? {
        return Err(NotFound);
      }
      if env.groupState.value != Online {
        return Err(ResourceUnavailable);
      }
      if !env.volumeMemory {
        return Err(OutOfMemory);
      }
      var numBlocks := BlockCount(req.sizeBytes, req.blockSize);
      var size := Wrap64(numBlocks * req.blockSize);
      if env.localNode.Err? {
        return Err(env.localNode.error);
      }
      var slots, count, tolerated := AssignReplicas(env.localNode.value, env.now, env.knownNodes, req.ftt);
      var v := Volume(env.newId, Clip(req.name, MAX_NAME_LEN), size, req.blockSize, numBlocks, Unknown, req.group,
                      req.thin, 0, tolerated, count, slots);
      var extents: seq<Extent> := [];
      if !req.thin {
        var a := AllocateExtents(env.allocation);
        if a.Err? {
          return Err(a.error);
        }
        if a.value == [] {
          assert handedOut == old(handedOut);
          return Err(Internal);
        }
        extents := a.value;
        v := v.(allocatedBytes := v.sizeBytes);
      }
      v := v.(state := InitialState(v));
      assert v == NewVolume(req, env);
      r := Enroll(req, env, v, extents);
      if r.Ok? {
        assert NewMeta(req, env).extents == extents;
        assert Abs() == Committed(old(Abs()), v, NewMeta(req, env));
      } else {
        assert handedOut == old(handedOut);
        assert Abs() == old(Abs());
      }
    }

    /** From the allocation record on; whatever fails, the extents are given back. */
    method Enroll(req: CreateRequest, env: Answers, v: Volume, extents: seq<Extent>) returns (r: Result<Uuid>)
      requires LegalRequest(req) && env.localNode.Ok? && v == NewVolume(req, env)
      requires if req.thin then extents == [] else env.allocation == Ok(extents) && extents != []
      requires AllocKey(env.newId) !in store && VolumeKey(env.newId) !in store
      requires BlocksOf(extents) <= handedOut
      modifies this
      ensures r == if !env.metaMemory then Err(OutOfMemory)
                   else if |extents| > MAX_EXTENTS_PER_VOLUME then Err(TooManyExtents)
                   else if env.serializeMeta.Some? then Err(env.serializeMeta.value)
                   else if env.putMeta.Some? then Err(env.putMeta.value)
                   else if env.saveVolume.Some? then Err(env.saveVolume.value)
                   else if !env.listMemory then Err(OutOfMemory)
                   else Ok(env.newId)
      ensures r.Err? ==> volumes == old(volumes) && store == old(store) && handedOut == old(handedOut) - BlocksOf(extents)
      ensures r.Ok? ==> Abs() == Committed(VmState(old(volumes), old(store), old(handedOut)), v, NewMeta(req, env))
    {
      hide AllocKey, VolumeKey, BlocksOf, EncodeAlloc, EncodeVolume, SameName, InitialState, NewVolume;
      EmptyExtents();
      NumBlocksOf(req, env);
      if !env.metaMemory {
        GiveBack(extents, req.thin);
        return Err(OutOfMemory);
      }
      if |extents| > MAX_EXTENTS_PER_VOLUME {
        GiveBack(extents, req.thin);
        return Err(TooManyExtents);
      }
      var m := AllocMeta(v.id, req.group, extents, v.numBlocks, req.blockSize);
      assert m == NewMeta(req, env);
      var failed := Record(v, m, env);
      if failed.Some? {
        GiveBack(extents, req.thin);
        return Err(failed.value);
      }
      assert handedOut == handedOut + BlocksOf(m.extents);
      return Ok(env.newId);
    }

    static lemma NumBlocksOf(req: CreateRequest, env: Answers)
      requires LegalRequest(req) && env.localNode.Ok?
      ensures NewVolume(req, env).id == env.newId
      ensures NewVolume(req, env).numBlocks == BlockCount(req.sizeBytes, req.blockSize)
    {
    }

    static lemma CreateMeaning(s: VmState, req: CreateRequest, env: Answers)
      ensures var os := Objections(s.volumes, req, env);
        forall k :: 0 <= k < |os| && os[k].Some? && (forall j :: 0 <= j < k ==> os[j] == None) ==>
          CreateOutcome(s, req, env).1 == Err(os[k].value)
      ensures Refusal(s.volumes, req, env).None? <==> Permitted(s.volumes, req, env)
      ensures Permitted(s.volumes, req, env) ==> AsRequested(req, env, NewVolume(req, env))
      ensures Permitted(s.volumes, req, env) ==> var v := NewVolume(req, env);
        NewMeta(req, env) == AllocMeta(v.id, req.group, if req.thin then [] else env.allocation.value, v.numBlocks, req.blockSize)
    {
      hide Refusal, Objections, NewVolume, Committed, AsRequested;
      RefusedIffNotPermitted(s.volumes, req, env);
      var os := Objections(s.volumes, req, env);
      forall k | 0 <= k < |os| && os[k].Some? && (forall j :: 0 <= j < k ==> os[j] == None)
        ensures CreateOutcome(s, req, env).1 == Err(os[k].value)
      {
        RefusalIsFirstObjection(s.volumes, req, env, k);
      }
      if Permitted(s.volumes, req, env) {
        NewVolumeIsAsRequested(req, env);
        NumBlocksOf(req, env);
      }
    }

    /** The cleanup labels: extents are freed if there are any. */
    method GiveBack(extents: seq<Extent>, ghost thin: bool)
      requires thin ==> extents == []
      modifies this`handedOut
      ensures handedOut == old(handedOut) - BlocksOf(extents)
      ensures thin ==> handedOut == old(handedOut)
    {
      EmptyExtents();
      if |extents| > 0 {
        FreeExtents(extents);
      }
    }

    /** `xsan_volume_delete`. */
    method Delete(id: Uuid) returns (r: Result<()>)
      modifies this
      ensures (Abs(), r) == DeleteOutcome(old(Abs()), id)
      ensures r == if id == NULL_UUID then Err(InvalidParam)
                   else if exists v <- old(volumes) :: v.id == id then Ok(())
                   else Err(NotFound)
      ensures r.Err? ==> Abs() == old(Abs())
      ensures r.Ok? ==> exists i :: IsFirst(old(volumes), id, i) && volumes == old(volumes)[..i] + old(volumes)[i + 1..]
      ensures r.Ok? ==> store == old(store) - {AllocKey(id), VolumeKey(id)}
      ensures r.Ok? && AllocKey(id) in old(store) && old(store)[AllocKey(id)].AllocRecord? ==>
        handedOut == old(handedOut) - BlocksOf(DecodeAlloc(old(store)[AllocKey(id)].alloc).extents)
      ensures r.Ok? && (AllocKey(id) !in old(store) || !old(store)[AllocKey(id)].AllocRecord?) ==> handedOut == old(handedOut)
    {
      hide AllocKey, VolumeKey, BlocksOf, DecodeAlloc;
      if id == NULL_UUID {
        return Err(InvalidParam);
      }
      var i := 0;
      while i < |volumes| && volumes[i].id != id
        invariant i <= |volumes|
        invariant forall j :: 0 <= j < i ==> volumes[j].id != id
      {
        i := i + 1;
      }
      assert i == IndexOf(volumes, id);
      if i == |volumes| {
        return Err(NotFound);
      }
      var extents := RecordedExtents(store, id);
      EmptyExtents();
      if |extents| > 0 {
        FreeExtents(extents);
      }
      store := store - {AllocKey(id)};
      store := store - {VolumeKey(id)};
      volumes := volumes[..i] + volumes[i + 1..];
      assert handedOut == old(handedOut) - BlocksOf(extents);
      assert store == old(store) - {AllocKey(id), VolumeKey(id)};
      return Ok(());
    }
  }

  lemma EmptyExtents()
    ensures BlocksOf([]) == {}
  {
  }
}
