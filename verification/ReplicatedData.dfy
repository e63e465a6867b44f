/**
 What a replicated write that ends well has done: the statuses that the write context counts, tied to the disks of the
 nodes that sent them.
 */
module ReplicatedData {
  import opened MachineInts
  import opened Outcomes
  import opened Framer
  import opened Storage
  import opened VolumeMap
  import opened VolumeIo
  import opened ReplicaWrite
  import opened ReplicatedWrite

  /** One replica's node: the volumes it lists, its disks, and what they hold before and after the write. */
  datatype Copy = Copy(volumes: map<Uuid, Volume>, metas: map<Uuid, AllocMeta>, disks: Disks, before: Contents, after: Contents)

  datatype UserWrite = UserWrite(id: Uuid, blockSize: uint32, off: uint64, data: seq<byte>, tid: uint64)

  /** The node's submit path has made a device request of the write, and the device has carried it out. */
  ghost predicate CarriedOut(copy: Copy, w: LocalWrite) {
    && w.id in copy.volumes && |w.data| < TWO64 && Fits(copy.disks, copy.before)
    && var meta := if w.id in copy.metas then Some(copy.metas[w.id]) else None;
    var plan := Plan(copy.disks, copy.volumes[w.id], meta, w.off, |w.data|);
    && plan.Ok? && ValidRequest(copy.disks, plan.value) && |w.data| == Length(copy.disks, plan.value)
    && copy.after == WriteAt(copy.disks, copy.before, plan.value, w.data)
  }

  /**
   A node that reports success has carried out a write: the local one the user's, a remote one whatever its handler
   made of a message that the sender's bytes were framed into.
   */
  ghost predicate Truthful(a: Answers, copy: Copy, u: UserWrite)
    requires u.blockSize > 0 && |u.data| < TWO64
  {
    match a
    case Local(_, completion) => completion == StatusOk ==> CarriedOut(copy, LocalWrite(u.id, u.off, u.data))
    case Remote(_, _, _, _, response) => response == StatusOk ==>
      exists x <- Parse(OnTheWire(Outgoing(u.id, u.blockSize, u.off, u.data, u.tid))).messages ::
        WellFramed(x) && Accepted(copy.volumes, x).Ok? && CarriedOut(copy, Accepted(copy.volumes, x).value)
  }

  /** The node's copy of the volume is laid out so that the write is direct. */
  ghost predicate Ready(copy: Copy, u: UserWrite) {
    && u.id in copy.volumes && u.id in copy.metas
    && copy.volumes[u.id].blockSize == u.blockSize
    && var m := copy.metas[u.id];
    && LaidOut(copy.disks, m) && Separate(m.extents) && Describes(m, copy.volumes[u.id]) && Fits(copy.disks, copy.before)
    && |u.data| < TWO64 && Direct(copy.disks, m, u.off, |u.data|)
  }

  /** The copy is the old one with the user's data in place, and nothing else changed. */
  ghost predicate Holds(copy: Copy, u: UserWrite)
    requires Ready(copy, u)
  {
    && Fits(copy.disks, copy.after)
    && var m := copy.metas[u.id];
    u.off + |u.data| <= |View(copy.disks, m, copy.before)| &&
    View(copy.disks, m, copy.after) == Splice(View(copy.disks, m, copy.before), u.off, u.data)
  }

  lemma CarriedOutHolds(copy: Copy, u: UserWrite)
    requires Ready(copy, u) && CarriedOut(copy, LocalWrite(u.id, u.off, u.data))
    ensures Holds(copy, u)
  {
    hide Plan, View, WriteAt, LaidOut, Separate, Fits, Home, Length, ValidRequest, Splice;
    DirectWrite(copy.disks, copy.volumes[u.id], copy.metas[u.id], u.off, u.data, copy.before);
  }

  /** The user's write, below 2^32 blocks, is what a remote replica that reports success has carried out. */
  lemma RemoteCarriesOutUserWrite(copy: Copy, u: UserWrite)
    requires Ready(copy, u) && u.blockSize > 0 && |u.data| / u.blockSize < TWO32
    requires exists x <- Parse(OnTheWire(Outgoing(u.id, u.blockSize, u.off, u.data, u.tid))).messages ::
      WellFramed(x) && Accepted(copy.volumes, x).Ok? && CarriedOut(copy, Accepted(copy.volumes, x).value)
    ensures CarriedOut(copy, LocalWrite(u.id, u.off, u.data))
  {
    hide Parse, OnTheWire, Outgoing, WellFramed, Accepted, CarriedOut, LaidOut, Separate, Fits, Home;
    var m := Outgoing(u.id, u.blockSize, u.off, u.data, u.tid);
    if m.Some? {
      SealedFraming(m.value, u.id, u.blockSize, u.off, u.data, u.tid);
      AcceptedIsWhole(copy.volumes, u.id, u.off, u.data, u.tid);
    }
    DeliveredOrNot(m);
  }

  lemma OkReplicaHolds(a: Answers, before: State, code: int, copy: Copy, u: UserWrite)
    requires code != 0 && (a.Remote? && a.link.Refused? ==> a.link.connectStatus != 0)
    requires u.blockSize > 0 && |u.data| < TWO64 && |u.data| / u.blockSize < TWO32
    requires Truthful(a, copy, u) && Ready(copy, u)
    requires ReplicatedWrite.Outcome(a, before, code) == StatusOk
    ensures Holds(copy, u)
  {
    hide Parse, OnTheWire, Outgoing, WellFramed, Accepted, CarriedOut, Holds, Ready;
    if a.Remote? {
      RemoteCarriesOutUserWrite(copy, u);
    }
    CarriedOutHolds(copy, u);
  }

  /**
   A replicated write run to its end under any order of callbacks: if the user is told it succeeded, every replica's
   flat volume is the old one with the user's data written at the user's offset.
   */
  method RunReplicatedWrite(env: seq<Answers>, nodes: seq<Uuid>, before: seq<State>, target: nat, code: int,
                            ghost copies: seq<Copy>, ghost u: UserWrite)
    returns (w: WriteContext)
    requires Sane(env) && |nodes| == |before| == |env| == |copies| && code != 0
    requires forall i, j :: 0 <= i < j < |nodes| ==> nodes[i] != nodes[j]
    requires exists s <- before :: Writable(s)
    requires u.blockSize > 0 && |u.data| < TWO64 && |u.data| / u.blockSize < TWO32
    requires forall i :: 0 <= i < |env| ==> Truthful(env[i], copies[i], u) && Ready(copies[i], u)
    ensures fresh(w) && w.Valid() && w.successful + w.failed == |env|
    ensures w.finalStatus == StatusOk ==> forall i :: 0 <= i < |env| ==> Holds(copies[i], u)
  {
    hide Truthful, Ready, Holds;
    w := RunWrite(env, nodes, before, target, code);
    if w.finalStatus == StatusOk {
      forall i | 0 <= i < |env|
        ensures Holds(copies[i], u)
      {
        OkReplicaHolds(env[i], before[i], code, copies[i], u);
      }
    }
  }

  /** What was written can be read back: the same I/O on any copy that holds the write returns the user's data. */
  lemma ReadBack(copy: Copy, u: UserWrite)
    requires Ready(copy, u) && Holds(copy, u)
    ensures var plan := Plan(copy.disks, copy.volumes[u.id], Some(copy.metas[u.id]), u.off, |u.data|);
      plan.Ok? && ValidRequest(copy.disks, plan.value) && ReadAt(copy.disks, copy.after, plan.value) == u.data
  {
    hide Plan, View, LaidOut, Separate, Fits, Home, ReadAt, ValidRequest;
    DirectRead(copy.disks, copy.volumes[u.id], copy.metas[u.id], u.off, |u.data|, copy.after);
    var v := View(copy.disks, copy.metas[u.id], copy.before);
    assert Splice(v, u.off, u.data)[u.off..u.off + |u.data|] == u.data;
  }
}
