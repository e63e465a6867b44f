/** Where a volume's copies go, what state that puts the volume in, and how many copies a write has to reach. */
module Replicas {
  import opened MachineInts
  import opened Outcomes
  import opened Storage
  import opened Metadata

  datatype Node = Node(id: Uuid, ip: string, port: uint16)

  // ---------------------------------------------------------------- placement at creation

  /** The known nodes other than the local one, in order. */
  function Remotes(known: seq<Node>, local: Uuid): (r: seq<Node>)
    ensures forall i :: 0 <= i < |r| ==> r[i].id != local
  {
    if known == [] then []
    else
      var rest := Remotes(known[..|known| - 1], local);
      if known[|known| - 1].id != local then rest + [known[|known| - 1]] else rest
  }

  lemma {:induction false} RemotesGrow(known: seq<Node>, local: Uuid, i: nat)
    requires i <= |known|
    ensures Remotes(known[..i], local) <= Remotes(known, local)
  {
    if i < |known| {
      RemotesGrow(known[..|known| - 1], local, i);
      assert known[..|known| - 1][..i] == known[..i];
    } else {
      assert known[..i] == known;
    }
  }

  lemma RemotesStep(known: seq<Node>, local: Uuid, i: nat)
    requires i < |known|
    ensures Remotes(known[..i + 1], local) == Remotes(known[..i], local) + (if known[i].id != local then [known[i]] else [])
  {
    assert known[..i + 1][..i] == known[..i];
  }

  /** Where the nodes other than the local one stand. */
  ghost function Positions(known: seq<Node>, local: Uuid): (p: seq<nat>)
    ensures |p| == |Remotes(known, local)|
  {
    if known == [] then []
    else
      var n := |known| - 1;
      Positions(known[..n], local) + if known[n].id != local then [n] else []
  }

  lemma {:induction false} PositionAt(known: seq<Node>, local: Uuid, i: nat)
    requires i < |Remotes(known, local)|
    ensures Positions(known, local)[i] < |known| && known[Positions(known, local)[i]] == Remotes(known, local)[i]
  {
    var n := |known| - 1;
    if i < |Remotes(known[..n], local)| {
      PositionAt(known[..n], local, i);
    }
  }

  lemma {:induction false} PositionsIncrease(known: seq<Node>, local: Uuid, i: nat, j: nat)
    requires i < j < |Remotes(known, local)|
    ensures Positions(known, local)[i] < Positions(known, local)[j]
  {
    var n := |known| - 1;
    var front := known[..n];
    if j < |Remotes(front, local)| {
      PositionsIncrease(front, local, i, j);
    } else {
      PositionAt(front, local, i);
    }
  }

  lemma {:induction false} PositionOf(known: seq<Node>, local: Uuid, k: nat) returns (i: nat)
    requires k < |known| && known[k].id != local
    ensures i < |Remotes(known, local)| && Positions(known, local)[i] == k
  {
    var n := |known| - 1;
    if k < n {
      i := PositionOf(known[..n], local, k);
    } else {
      i := |Remotes(known[..n], local)|;
    }
  }

  ghost predicate DistinctIds(nodes: seq<Node>) {
    forall i, j :: 0 <= i < j < |nodes| ==> nodes[i].id != nodes[j].id
  }

  lemma {:induction false} RemotesDistinct(known: seq<Node>, local: Uuid)
    requires DistinctIds(known)
    ensures DistinctIds(Remotes(known, local))
  {
    if known != [] {
      var front, last := known[..|known| - 1], known[|known| - 1];
      RemotesDistinct(front, local);
      var rest := Remotes(front, local);
      forall i | 0 <= i < |rest|
        ensures rest[i].id != last.id
      {
        PositionAt(front, local, i);
        assert known[Positions(front, local)[i]].id != known[|front|].id;
      }
      assert DistinctIds(rest + [last]);
    }
  }

  /** The remote nodes chosen: the first `ftt` of them; none when the cluster cannot be asked. */
  function Chosen(known: Result<seq<Node>>, local: Uuid, ftt: nat): (r: seq<Node>)
    ensures |r| <= ftt
  {
    if known.Err? then []
    else
      var all := Remotes(known.value, local);
      all[..Min(ftt, |all|)]
  }

  function LocalReplica(local: Node, now: uint64): Replica {
    Replica(local.id, Clip(local.ip, MAX_IP_LEN), local.port, Online, now)
  }

  function RemoteReplica(n: Node): Replica {
    Replica(n.id, Clip(n.ip, MAX_IP_LEN), n.port, Initializing, 0)
  }

  /** The three slots: the local copy, then the remote ones, then blanks. */
  function Slots(local: Node, now: uint64, remotes: seq<Node>): (s: seq<Replica>)
    requires |remotes| < MAX_REPLICAS
    ensures |s| == MAX_REPLICAS
  {
    seq(MAX_REPLICAS, i requires 0 <= i < MAX_REPLICAS =>
      if i == 0 then LocalReplica(local, now)
      else if i <= |remotes| then RemoteReplica(remotes[i - 1])
      else EMPTY_SLOT)
  }

  lemma SlotsAppend(local: Node, now: uint64, remotes: seq<Node>, n: Node)
    requires |remotes| + 1 < MAX_REPLICAS
    ensures Slots(local, now, remotes + [n]) == Slots(local, now, remotes)[|remotes| + 1 := RemoteReplica(n)]
  {
    hide LocalReplica, RemoteReplica;
  }

  /**
   The slots hold the nodes at these positions, in order: other nodes than the local one, none left out before the last,
   and none left out at all unless enough were found.
   */
  ghost predicate Picks(nodes: seq<Node>, local: Uuid, wanted: nat, slots: seq<Replica>, pick: seq<nat>) {
    && |pick| <= wanted && |pick| < |slots|
    && (forall i, j :: 0 <= i < j < |pick| ==> pick[i] < pick[j])
    && (forall i :: 0 <= i < |pick| ==> pick[i] < |nodes| && nodes[pick[i]].id != local)
    && (forall i :: 0 <= i < |pick| ==>
          var n, s := nodes[pick[i]], slots[i + 1];
          s.node == n.id && s.ip <= n.ip && (|n.ip| < MAX_IP_LEN ==> s.ip == n.ip) && s.port == n.port
          && s.state == Initializing && s.lastContact == 0)
    && (forall k {:trigger Taken(pick, k)} :: 0 <= k < |nodes| && nodes[k].id != local && !Taken(pick, k) ==>
          |pick| == wanted && forall p <- pick :: p < k)
  }

  ghost predicate Taken(pick: seq<nat>, k: nat) {
    k in pick
  }

  /** In those terms, what the placement amounts to. */
  lemma SlotsArePicks(local: Node, now: uint64, nodes: seq<Node>, ftt: nat) returns (pick: seq<nat>)
    requires ftt < MAX_REPLICAS
    ensures var remotes := Chosen(Ok(nodes), local.id, ftt);
      |pick| == |remotes| && Picks(nodes, local.id, ftt, Slots(local, now, remotes), pick)
  {
    hide Remotes, Positions;
    var positions, remotes := Positions(nodes, local.id), Chosen(Ok(nodes), local.id, ftt);
    pick := positions[..Min(ftt, |positions|)];
    forall i, j | 0 <= i < j < |pick|
      ensures pick[i] < pick[j]
    {
      PositionsIncrease(nodes, local.id, i, j);
    }
    forall i | 0 <= i < |pick|
      ensures pick[i] < |nodes| && nodes[pick[i]] == remotes[i] && nodes[pick[i]].id != local.id
    {
      PositionAt(nodes, local.id, i);
    }
    forall k | 0 <= k < |nodes| && nodes[k].id != local.id && !Taken(pick, k)
      ensures |pick| == ftt && forall p <- pick :: p < k
    {
      NoneSkipped(nodes, local.id, pick, k);
    }
  }

  lemma NoneSkipped(nodes: seq<Node>, local: Uuid, pick: seq<nat>, k: nat)
    requires pick <= Positions(nodes, local) && k < |nodes| && nodes[k].id != local && !Taken(pick, k)
    ensures |pick| < |Positions(nodes, local)| && forall p <- pick :: p < k
  {
    hide Remotes, Positions;
    var i := PositionOf(nodes, local, k);
    forall j | 0 <= j < |pick|
      ensures Positions(nodes, local)[j] != k && j != i
    {
      assert pick[j] in pick;
    }
    forall p <- pick
      ensures p < k
    {
      var j :| 0 <= j < |pick| && pick[j] == p;
      PositionsIncrease(nodes, local, j, i);
    }
  }

  /** Fills the slots one after another and lowers the failures to tolerate to what could be placed. */
  method AssignReplicas(local: Node, now: uint64, known: Result<seq<Node>>, ftt: uint32)
    returns (slots: seq<Replica>, count: uint32, tolerated: uint32)
    requires ftt < MAX_REPLICAS
    ensures var remotes := Chosen(known, local.id, ftt);
      slots == Slots(local, now, remotes) && tolerated == |remotes| && count == |remotes| + 1
    ensures slots[0] == Replica(local.id, Clip(local.ip, MAX_IP_LEN), local.port, Online, now)
    ensures forall i :: count <= i < |slots| ==> slots[i] == EMPTY_SLOT
    ensures known.Err? ==> tolerated == 0
    ensures known.Ok? ==> exists pick :: |pick| == tolerated && Picks(known.value, local.id, ftt, slots, pick)
  {
    if known.Ok? {
      var pick := SlotsArePicks(local, now, known.value, ftt);
    }
    hide LocalReplica, RemoteReplica, Remotes, Picks;
    SlotsEnds(local, now, Chosen(known, local.id, ftt));
    slots := [LocalReplica(local, now), EMPTY_SLOT, EMPTY_SLOT];
    assert slots == Slots(local, now, []);
    count, tolerated := ftt + 1, ftt;
    if count > 1 {
      if known.Err? {
        count, tolerated := 1, 0;
      } else {
        hide Slots, Chosen;
        var placed;
        slots, placed := PlaceRemotes(local, now, known.value, slots, tolerated);
        if placed < tolerated {
          count, tolerated := placed + 1, placed;
        }
      }
    }
  }

  lemma SlotsEnds(local: Node, now: uint64, remotes: seq<Node>)
    requires |remotes| < MAX_REPLICAS
    ensures var s := Slots(local, now, remotes);
      && s[0] == Replica(local.id, Clip(local.ip, MAX_IP_LEN), local.port, Online, now)
      && forall i :: |remotes| < i < MAX_REPLICAS ==> s[i] == EMPTY_SLOT
  {
    assert Slots(local, now, remotes)[0] == LocalReplica(local, now);
  }

  /** The loop over the known nodes: the first ones that are not this one, until enough are placed. */
  method PlaceRemotes(local: Node, now: uint64, nodes: seq<Node>, empty: seq<Replica>, wanted: nat)
    returns (slots: seq<Replica>, placed: nat)
    requires wanted < MAX_REPLICAS && empty == Slots(local, now, [])
    ensures var remotes := Chosen(Ok(nodes), local.id, wanted); slots == Slots(local, now, remotes) && placed == |remotes|
  {
    assert Remotes([], local.id) == [];
    hide LocalReplica, RemoteReplica, Slots, Remotes, Chosen;
    slots, placed := empty, 0;
    assert nodes[..0] == [];
    var i: nat := 0;
    while i < |nodes| && placed < wanted
      invariant i <= |nodes|
      invariant placed == |Remotes(nodes[..i], local.id)| <= wanted
      invariant slots == Slots(local, now, Remotes(nodes[..i], local.id))
    {
      RemotesStep(nodes, local.id, i);
      if nodes[i].id != local.id {
        SlotsAppend(local, now, Remotes(nodes[..i], local.id), nodes[i]);
        slots := slots[placed + 1 := RemoteReplica(nodes[i])];
        placed := placed + 1;
      }
      i := i + 1;
    }
    PrefixIsChosen(nodes, local.id, i, wanted);
  }

  lemma PrefixIsChosen(nodes: seq<Node>, local: Uuid, i: nat, wanted: nat)
    requires i <= |nodes| && |Remotes(nodes[..i], local)| <= wanted
    requires i == |nodes| || |Remotes(nodes[..i], local)| == wanted
    ensures Chosen(Ok(nodes), local, wanted) == Remotes(nodes[..i], local)
  {
    hide Remotes;
    RemotesGrow(nodes, local, i);
    if i == |nodes| {
      assert nodes[..i] == nodes;
    }
  }

  /** The slots in use hold pairwise different nodes, the local one first. */
  lemma SlotsDistinct(local: Node, now: uint64, known: Result<seq<Node>>, ftt: uint32)
    requires ftt < MAX_REPLICAS
    requires known.Ok? ==> DistinctIds(known.value)
    ensures var remotes := Chosen(known, local.id, ftt);
      var s := Slots(local, now, remotes);
      && s[0].node == local.id
      && forall i, j :: 0 <= i < j <= |remotes| ==> s[i].node != s[j].node
  {
    assert Slots(local, now, Chosen(known, local.id, ftt))[0] == LocalReplica(local, now);
    if known.Ok? {
      RemotesDistinct(known.value, local.id);
      var all := Remotes(known.value, local.id);
      var s := Slots(local, now, Chosen(known, local.id, ftt));
      forall i, j | 0 <= i < j <= |Chosen(known, local.id, ftt)|
        ensures s[i].node != s[j].node
      {
        assert s[j].node == all[j - 1].id;
        assert all[j - 1] in all;
        assert s[i].node == if i == 0 then local.id else all[i - 1].id;
      }
    }
  }

  // ---------------------------------------------------------------- state

  function CountOnline(rs: seq<Replica>): nat {
    if rs == [] then 0 else CountOnline(rs[..|rs| - 1]) + (if rs[|rs| - 1].state == Online then 1 else 0)
  }

  /** Enough copies online, some, or none. */
  function OverallState(v: Volume): State
    requires v.replicaCount <= |v.replicas|
  {
    var online := CountOnline(v.replicas[..v.replicaCount]);
    var wanted := Wrap32(v.ftt + 1);
    var needed := if wanted > v.replicaCount && v.replicaCount > 0 then v.replicaCount else wanted;
    if online >= needed then Online else if online > 0 then Degraded else Offline
  }

  /** The recomputation `_xsan_volume_update_overall_state` makes. */
  method UpdateOverallState(v: Volume) returns (state: State)
    requires v.replicaCount <= |v.replicas|
    ensures state == OverallState(v)
  {
    var online: nat := 0;
    for i := 0 to v.replicaCount
      invariant online == CountOnline(v.replicas[..i])
    {
      assert v.replicas[..i + 1][..i] == v.replicas[..i];
      if v.replicas[i].state == Online {
        online := online + 1;
      }
    }
    var required := Wrap32(v.ftt + 1);
    if required > v.replicaCount && v.replicaCount > 0 {
      required := v.replicaCount;
    }
    if online >= required {
      state := Online;
    } else if online > 0 {
      state := Degraded;
    } else {
      state := Offline;
    }
  }

  lemma {:induction false} CountOnlineMeaning(rs: seq<Replica>)
    ensures CountOnline(rs) <= |rs|
    ensures CountOnline(rs) == |rs| <==> forall i :: 0 <= i < |rs| ==> rs[i].state == Online
    ensures CountOnline(rs) == 0 <==> forall i :: 0 <= i < |rs| ==> rs[i].state != Online
  {
    if rs != [] {
      var front := rs[..|rs| - 1];
      CountOnlineMeaning(front);
      assert forall i :: 0 <= i < |front| ==> front[i] == rs[i];
    }
  }

  /** The copies that are online. */
  ghost function OnlineCopies(v: Volume): set<int>
    requires v.replicaCount <= |v.replicas|
  {
    set i | 0 <= i < v.replicaCount && v.replicas[i].state == Online
  }

  /** In general: online with FTT + 1 copies online, or with all there are; degraded with fewer; offline with none. */
  lemma OverallStateCounts(v: Volume)
    requires 1 <= v.replicaCount <= |v.replicas| && v.ftt + 1 < TWO32
    ensures OverallState(v) == Online <==> |OnlineCopies(v)| >= v.ftt + 1 || |OnlineCopies(v)| == v.replicaCount
    ensures OverallState(v) == Offline <==> |OnlineCopies(v)| == 0
    ensures OverallState(v) in {Online, Degraded, Offline}
  {
    CountOnlineIsSet(v.replicas, v.replicaCount);
    CountOnlineMeaning(v.replicas[..v.replicaCount]);
  }

  lemma {:induction false} CountOnlineIsSet(rs: seq<Replica>, n: nat)
    requires n <= |rs|
    ensures CountOnline(rs[..n]) == |set i | 0 <= i < n && rs[i].state == Online|
  {
    if n > 0 {
      CountOnlineIsSet(rs, n - 1);
      assert rs[..n][..n - 1] == rs[..n - 1];
      var s := set i | 0 <= i < n - 1 && rs[i].state == Online;
      assert (set i | 0 <= i < n && rs[i].state == Online) == s + if rs[n - 1].state == Online then {n - 1} else {};
    }
  }

  /** When no spare copies are kept, a volume is online iff every copy is, offline iff none is, and degraded between. */
  lemma OverallStateMeaning(v: Volume)
    requires 1 <= v.replicaCount <= |v.replicas| && v.replicaCount <= Wrap32(v.ftt + 1)
    ensures OverallState(v) == Online <==> forall i :: 0 <= i < v.replicaCount ==> v.replicas[i].state == Online
    ensures OverallState(v) == Offline <==> forall i :: 0 <= i < v.replicaCount ==> v.replicas[i].state != Online
    ensures OverallState(v) in {Online, Degraded, Offline}
  {
    CountOnlineMeaning(v.replicas[..v.replicaCount]);
  }

  /** The state `xsan_volume_create` gives a volume: only the local slot is looked at. */
  function InitialState(v: Volume): State
    requires |v.replicas| == MAX_REPLICAS
  {
    var online := if v.replicas[0].state == Online then 1 else 0;
    if v.replicaCount == 1 && online == 1 then Online
    else if online >= Wrap32(v.ftt + 1) then Online
    else if online > 0 then Degraded
    else Offline
  }

  /** With the local copy online and the others still initializing, both computations agree. */
  lemma InitialStateIsOverallState(v: Volume)
    requires |v.replicas| == MAX_REPLICAS && 1 <= v.replicaCount <= MAX_REPLICAS && v.replicaCount == v.ftt + 1
    requires v.replicas[0].state == Online
    requires forall i :: 1 <= i < v.replicaCount ==> v.replicas[i].state != Online
    ensures InitialState(v) == OverallState(v)
  {
    OneOnline(v.replicas[..v.replicaCount]);
  }

  lemma {:induction false} OneOnline(rs: seq<Replica>)
    requires rs != [] && rs[0].state == Online && forall i :: 1 <= i < |rs| ==> rs[i].state != Online
    ensures CountOnline(rs) == 1
  {
    if |rs| > 1 {
      OneOnline(rs[..|rs| - 1]);
    } else {
      assert rs[..0] == [];
    }
  }

  // ---------------------------------------------------------------- how many copies a write targets

  /** `xsan_replicated_io_ctx_create` in xsan_replication_common.c: failures to tolerate plus one, clamped twice. */
  function ClampedTarget(v: Volume): Option<nat> {
    if v.replicaCount == 0 && v.ftt > 0 then None
    else
      var wanted: nat := Wrap32(v.ftt + 1);
      var target := Min(Min(wanted, v.replicaCount), MAX_REPLICAS);
      if target == 0 then None else Some(target)
  }

  /** `xsan_replicated_io_ctx_create` in xsan_replication.c: the replica count, if it is a legal one. */
  function CountTarget(v: Volume): Option<nat> {
    if v.replicaCount == 0 || v.replicaCount > MAX_REPLICAS then None else Some(v.replicaCount)
  }

  /** The two constructors target the same number of copies exactly when the replica count does not exceed FTT + 1. */
  lemma TargetsAgreeIff(v: Volume)
    requires 1 <= v.replicaCount <= MAX_REPLICAS
    ensures ClampedTarget(v) == CountTarget(v) <==> v.replicaCount <= Wrap32(v.ftt + 1)
    ensures CountTarget(v) == Some(v.replicaCount)
    ensures v.ftt + 1 < TWO32 ==> ClampedTarget(v) == Some(if v.ftt + 1 < v.replicaCount then v.ftt + 1 else v.replicaCount)
  {
  }
}
