/**
 Restart: `xsan_volume_manager_load_metadata` seeks to the volume prefix in a sorted store and reads until the first
 key without it. It finds every volume record, no allocation record, and leaves the store as it is.
 */
module Recovery {
  import opened Storage
  import opened VolumeMap
  import opened Metadata
  import opened Replicas
  import opened Lifecycle
  import opened LifecycleRuns

  // ---------------------------------------------------------------- sorted keys

  /** Lexicographic order of keys. */
  predicate Less(a: string, b: string) {
    b != [] && (a == [] || a[0] < b[0] || (a[0] == b[0] && Less(a[1..], b[1..])))
  }

  ghost predicate Sorted(keys: seq<string>) {
    forall i, j :: 0 <= i < j < |keys| ==> Less(keys[i], keys[j])
  }

  lemma {:induction false} LessIrreflexive(a: string)
    ensures !Less(a, a)
  {
    if a != [] {
      LessIrreflexive(a[1..]);
    }
  }

  /** A key with the prefix does not sort before the prefix. */
  lemma {:induction false} PrefixedNotBelow(p: string, k: string)
    ensures p <= k ==> !Less(k, p)
  {
    if p != [] && k != [] {
      PrefixStep(p, k);
      PrefixedNotBelow(p[1..], k[1..]);
    }
  }

  /** Past the prefix without having it: nothing further on has it either. */
  lemma {:induction false} PastPrefix(p: string, k: string, k': string)
    requires !Less(k, p) && !(p <= k) && Less(k, k')
    ensures !(p <= k')
  {
    if p != [] && k != [] && k' != [] {
      PrefixStep(p, k);
      PrefixStep(p, k');
      if p[0] == k[0] == k'[0] {
        PastPrefix(p[1..], k[1..], k'[1..]);
      }
    }
  }

  lemma PrefixStep(p: string, k: string)
    requires p != [] && k != []
    ensures p <= k <==> p[0] == k[0] && p[1..] <= k[1..]
  {
    assert p == [p[0]] + p[1..] && k == [k[0]] + k[1..];
  }

  /** The keys with a prefix, in order. */
  function Matching(keys: seq<string>, p: string): (r: seq<string>)
    ensures forall k :: k in r <==> k in keys && p <= k
  {
    if keys == [] then []
    else Matching(keys[..|keys| - 1], p) + (if p <= keys[|keys| - 1] then [keys[|keys| - 1]] else [])
  }

  lemma {:induction false} MatchingConcat(a: seq<string>, b: seq<string>, p: string)
    ensures Matching(a + b, p) == Matching(a, p) + Matching(b, p)
  {
    if b == [] {
      assert a + b == a;
    } else {
      MatchingConcat(a, b[..|b| - 1], p);
      assert (a + b)[..|a + b| - 1] == a + b[..|b| - 1];
    }
  }

  lemma {:induction false} AllMatching(keys: seq<string>, p: string)
    requires forall i :: 0 <= i < |keys| ==> p <= keys[i]
    ensures Matching(keys, p) == keys
  {
    if keys != [] {
      AllMatching(keys[..|keys| - 1], p);
      assert keys == keys[..|keys| - 1] + [keys[|keys| - 1]];
    }
  }

  /** In sorted order the keys with a prefix are one stretch. */
  lemma MatchingIsStretch(keys: seq<string>, p: string, lo: nat, hi: nat)
    requires Sorted(keys) && lo <= hi <= |keys|
    requires forall i :: 0 <= i < lo ==> Less(keys[i], p)
    requires lo < |keys| ==> !Less(keys[lo], p)
    requires forall i :: lo <= i < hi ==> p <= keys[i]
    requires hi < |keys| ==> !(p <= keys[hi])
    ensures Matching(keys, p) == keys[lo..hi]
  {
    hide Matching, Less;
    assert keys == keys[..lo] + keys[lo..hi] + keys[hi..];
    MatchingConcat(keys[..lo] + keys[lo..hi], keys[hi..], p);
    MatchingConcat(keys[..lo], keys[lo..hi], p);
    AllMatching(keys[lo..hi], p);
    assert Matching(keys[..lo], p) == [] by {
      forall i | 0 <= i < lo ensures !(p <= keys[..lo][i]) {
        PrefixedNotBelow(p, keys[i]);
      }
      NoneMatching(keys[..lo], p);
    }
    assert Matching(keys[hi..], p) == [] by {
      if hi < |keys| {
        assert !Less(keys[hi], p) by {
          if Less(keys[hi], p) && hi > lo {
            LessTransitive(keys[lo], keys[hi], p);
          }
        }
        forall i | hi <= i < |keys| ensures !(p <= keys[i]) {
          if i > hi {
            PastPrefix(p, keys[hi], keys[i]);
          }
        }
      }
      NoneMatching(keys[hi..], p);
    }
  }

  lemma {:induction false} LessTransitive(a: string, b: string, c: string)
    requires Less(a, b) && Less(b, c)
    ensures Less(a, c)
  {
    if a != [] && a[0] == b[0] == c[0] {
      LessTransitive(a[1..], b[1..], c[1..]);
    }
  }

  lemma {:induction false} NoneMatching(keys: seq<string>, p: string)
    requires forall i :: 0 <= i < |keys| ==> !(p <= keys[i])
    ensures Matching(keys, p) == []
  {
    if keys != [] {
      NoneMatching(keys[..|keys| - 1], p);
    }
  }

  // ---------------------------------------------------------------- loading

  /** One record: decode, recompute the state, list the volume, save it again if the state changed. */
  function LoadOne(s: VmState, r: Record): VmState {
    if !r.VolumeRecord? then s
    else
      var v := DecodeVolume(r.volume);
      var v' := v.(state := OverallState(v));
      VmState(s.volumes + [v'],
              if v'.state != v.state then s.store[VolumeKey(v.id) := VolumeRecord(EncodeVolume(v'))] else s.store,
              s.handedOut)
  }

  function LoadAll(s: VmState, snapshot: map<string, Record>, keys: seq<string>): VmState
    requires forall k <- keys :: k in snapshot
  {
    if keys == [] then s
    else LoadOne(LoadAll(s, snapshot, keys[..|keys| - 1]), snapshot[keys[|keys| - 1]])
  }

  /** The iterator's order: every key of the store once, sorted. */
  ghost predicate Enumerates(order: seq<string>, store: map<string, Record>) {
    Sorted(order) && forall k :: k in order <==> k in store
  }

  method LoadRecord(vm: VolumeManager, r: Record)
    modifies vm
    ensures vm.Abs() == LoadOne(old(vm.Abs()), r)
  {
    hide DecodeVolume, EncodeVolume, VolumeKey, OverallState;
    if r.VolumeRecord? {
      var v := DecodeVolume(r.volume);
      assert v.replicaCount <= |v.replicas| by { DecodedCount(r.volume); }
      var state := UpdateOverallState(v);
      var v' := v.(state := state);
      vm.volumes := vm.volumes + [v'];
      if state != v.state {
        vm.store := vm.store[VolumeKey(v.id) := VolumeRecord(EncodeVolume(v'))];
      }
    }
  }

  lemma DecodedCount(j: VolumeJson)
    ensures DecodeVolume(j).replicaCount <= |DecodeVolume(j).replicas|
  {
  }

  method LoadMetadata(vm: VolumeManager, order: seq<string>)
    requires Enumerates(order, vm.store)
    modifies vm
    ensures vm.Abs() == LoadAll(old(vm.Abs()), old(vm.store), Matching(order, VOLUME_PREFIX))
  {
    hide Less, LoadOne;
    var snapshot := vm.store;
    var lo := 0;
    while lo < |order| && Less(order[lo], VOLUME_PREFIX)
      invariant lo <= |order|
      invariant forall i :: 0 <= i < lo ==> Less(order[i], VOLUME_PREFIX)
    {
      lo := lo + 1;
    }
    var i := lo;
    while i < |order| && VOLUME_PREFIX <= order[i]
      invariant lo <= i <= |order|
      invariant forall j :: lo <= j < i ==> VOLUME_PREFIX <= order[j]
      invariant vm.Abs() == LoadAll(old(vm.Abs()), snapshot, order[lo..i])
    {
      assert order[lo..i + 1][..i - lo] == order[lo..i];
      assert order[lo..i + 1][i - lo] == order[i];
      LoadRecord(vm, snapshot[order[i]]);
      i := i + 1;
    }
    MatchingIsStretch(order, VOLUME_PREFIX, lo, i);
  }

  // ---------------------------------------------------------------- what a restart does to any store

  /** These are volume records, each under the key of the volume it describes. */
  ghost predicate Keyed(store: map<string, Record>, keys: seq<string>) {
    && Distinct(keys)
    && forall i :: 0 <= i < |keys| ==>
         && keys[i] in store && store[keys[i]].VolumeRecord?
         && keys[i] == VolumeKey(DecodeVolume(store[keys[i]].volume).id)
  }

  /** The volume is the one on record, in the state its replicas put it in. */
  ghost predicate Brought(j: VolumeJson, v: Volume) {
    && v.replicaCount <= |v.replicas|
    && v.(state := DecodeVolume(j).state) == DecodeVolume(j)
    && v.state == OverallState(v)
  }

  /** Every volume on record is listed in key order, and afterwards its record is what is listed. */
  ghost predicate InStep(before: map<string, Record>, keys: seq<string>, after: VmState) {
    && |after.volumes| == |keys|
    && after.store.Keys == before.Keys
    && (forall i :: 0 <= i < |keys| ==>
          && keys[i] in before && before[keys[i]].VolumeRecord? && Brought(before[keys[i]].volume, after.volumes[i])
          && after.store[keys[i]].VolumeRecord? && DecodeVolume(after.store[keys[i]].volume) == after.volumes[i])
    && (forall k <- before :: k !in keys ==> after.store[k] == before[k])
  }

  lemma DecodedIsStorable(j: VolumeJson)
    ensures Storable(DecodeVolume(j))
  {
    hide ParseText;
  }

  lemma {:induction false} RestartBringsInStep(s: VmState, keys: seq<string>)
    requires s.volumes == [] && Keyed(s.store, keys)
    ensures var s' := LoadAll(s, s.store, keys); InStep(s.store, keys, s') && s'.handedOut == s.handedOut
  {
    hide Keyed, InStep, LoadOne, VolumeKey, DecodeVolume;
    if keys == [] {
      NothingLoaded(s);
    } else {
      var n := |keys| - 1;
      var front, k := keys[..n], keys[n];
      KeyedFront(s.store, keys);
      RestartBringsInStep(s, front);
      OneMore(s.store, front, k, LoadAll(s, s.store, front));
      SpaceKept(LoadAll(s, s.store, front), s.store[k]);
      assert keys == front + [k];
    }
  }

  lemma NothingLoaded(s: VmState)
    requires s.volumes == []
    ensures InStep(s.store, [], s)
  {
  }

  lemma KeyedFront(store: map<string, Record>, keys: seq<string>)
    requires Keyed(store, keys) && keys != []
    ensures var front, k := keys[..|keys| - 1], keys[|keys| - 1];
      && Keyed(store, front) && k !in front
      && k in store && store[k].VolumeRecord? && k == VolumeKey(DecodeVolume(store[k].volume).id)
    ensures forall k <- keys :: k in store
  {
    hide VolumeKey, DecodeVolume;
  }

  lemma SpaceKept(s: VmState, r: Record)
    ensures LoadOne(s, r).handedOut == s.handedOut
  {
  }

  lemma OneMore(before: map<string, Record>, front: seq<string>, k: string, s: VmState)
    requires InStep(before, front, s) && k !in front && k in before && before[k].VolumeRecord?
    requires k == VolumeKey(DecodeVolume(before[k].volume).id)
    ensures InStep(before, front + [k], LoadOne(s, before[k]))
  {
    hide DecodeVolume, EncodeVolume, VolumeKey, OverallState;
    var was := DecodeVolume(before[k].volume);
    DecodedIsStorable(before[k].volume);
    RestatedMeaning(was);
    var v := was.(state := OverallState(was));
    VolumeRoundTrip(v);
    var s' := LoadOne(s, before[k]);
    assert s.store[k] == before[k];
    assert s'.volumes == s.volumes + [v];
    assert forall x <- front :: x != k;
    assert DecodeVolume(s'.store[k].volume) == v;
  }

  lemma RestatedMeaning(was: Volume)
    requires Storable(was)
    ensures var v := was.(state := OverallState(was)); Storable(v) && v.state == OverallState(v)
  {
  }

  /** A restart right after a restart finds everything in place: the same list, and nothing to write. */
  lemma RestartAgain(s: VmState, keys: seq<string>)
    requires s.volumes == [] && Keyed(s.store, keys)
    ensures var s' := LoadAll(s, s.store, keys);
      Keyed(s'.store, keys) && LoadAll(s'.(volumes := []), s'.store, keys) == s'
  {
    hide DecodeVolume, VolumeKey, OverallState, LoadAll;
    RestartBringsInStep(s, keys);
    var s' := LoadAll(s, s.store, keys);
    assert s'.volumes[..|keys|] == s'.volumes;
    forall i | 0 <= i < |keys|
      ensures keys[i] == VolumeKey(DecodeVolume(s'.store[keys[i]].volume).id)
      ensures DecodeVolume(s'.store[keys[i]].volume).state == OverallState(DecodeVolume(s'.store[keys[i]].volume))
    {
      assert Brought(s.store[keys[i]].volume, s'.volumes[i]);
    }
    AlreadyInStep(s'.(volumes := []), keys, s'.volumes);
  }

  lemma {:induction false} AlreadyInStep(s: VmState, keys: seq<string>, listed: seq<Volume>)
    requires s.volumes == [] && |listed| == |keys|
    requires forall i :: 0 <= i < |keys| ==> keys[i] in s.store && s.store[keys[i]].VolumeRecord?
    requires forall i :: 0 <= i < |keys| ==> DecodeVolume(s.store[keys[i]].volume) == listed[i]
    requires forall i :: 0 <= i < |keys| ==> listed[i].replicaCount <= |listed[i].replicas| && listed[i].state == OverallState(listed[i])
    ensures LoadAll(s, s.store, keys) == s.(volumes := listed)
  {
    hide DecodeVolume, OverallState;
    if keys != [] {
      var n := |keys| - 1;
      AlreadyInStep(s, keys[..n], listed[..n]);
      assert listed[n].(state := listed[n].state) == listed[n];
      assert listed == listed[..n] + [listed[n]];
    }
  }

  // ---------------------------------------------------------------- what a restart finds

  /** Loading records of sound volumes lists exactly those volumes and touches nothing else. */
  lemma {:induction false} LoadAllIsFaithful(s: VmState, keys: seq<string>, owners: seq<Volume>)
    requires |owners| == |keys|
    requires forall i :: 0 <= i < |keys| ==>
      Sound(owners[i]) && keys[i] in s.store && s.store[keys[i]] == VolumeRecord(EncodeVolume(owners[i]))
    ensures LoadAll(s.(volumes := []), s.store, keys) == s.(volumes := owners)
  {
    hide EncodeVolume, DecodeVolume, OverallState;
    if keys != [] {
      var n := |keys| - 1;
      LoadAllIsFaithful(s, keys[..n], owners[..n]);
      VolumeRoundTrip(owners[n]);
      assert owners[n].(state := owners[n].state) == owners[n];
      assert owners == owners[..n] + [owners[n]];
    }
  }

  lemma OwnerExists(disks: Disks, s: VmState, k: string)
    requires Inv(disks, s) && k in s.store && VOLUME_PREFIX <= k
    ensures exists v <- s.volumes :: k == VolumeKey(v.id)
  {
    hide Text, AllOnRecord, SpaceIsHeld, HeldApart;
    assert Claimed(s, k);
    var v :| v in s.volumes && (k == VolumeKey(v.id) || k == AllocKey(v.id));
    assert AllocKey(v.id)[1] == 'o';
  }

  /** The listed volumes a list of volume keys belongs to. */
  lemma {:induction false} Owners(disks: Disks, s: VmState, keys: seq<string>) returns (owners: seq<Volume>)
    requires Inv(disks, s)
    requires forall i :: 0 <= i < |keys| ==> keys[i] in s.store && VOLUME_PREFIX <= keys[i]
    ensures |owners| == |keys|
    ensures forall i :: 0 <= i < |keys| ==> owners[i] in s.volumes && keys[i] == VolumeKey(owners[i].id)
  {
    hide Inv, VolumeKey;
    owners := [];
    if keys != [] {
      var n := |keys| - 1;
      owners := Owners(disks, s, keys[..n]);
      OwnerExists(disks, s, keys[n]);
      var v :| v in s.volumes && keys[n] == VolumeKey(v.id);
      owners := owners + [v];
    }
  }

  /**
   After any run of creations and deletions a restart lists exactly the volumes that were listed, each once and each
   as it was, and changes neither the store nor the space handed out.
   */
  lemma RestartRecoversListedVolumes(disks: Disks, ops: seq<Op>, order: seq<string>)
    requires Admissible(disks, EMPTY, ops) && Enumerates(order, Run(EMPTY, ops).store)
    ensures var s := Run(EMPTY, ops);
      var s' := LoadAll(s.(volumes := []), s.store, Matching(order, VOLUME_PREFIX));
      && s' == s.(volumes := s'.volumes)
      && LifecycleRuns.DistinctIds(s'.volumes)
      && forall v :: v in s'.volumes <==> v in s.volumes
  {
    hide Run, Inv;
    RunKeepsInv(disks, ops);
    RestartFrom(disks, Run(EMPTY, ops), order);
  }

  lemma RestartFrom(disks: Disks, s: VmState, order: seq<string>)
    requires Inv(disks, s) && Enumerates(order, s.store)
    ensures var s' := LoadAll(s.(volumes := []), s.store, Matching(order, VOLUME_PREFIX));
      && s' == s.(volumes := s'.volumes)
      && LifecycleRuns.DistinctIds(s'.volumes)
      && forall v :: v in s'.volumes <==> v in s.volumes
  {
    hide Sound, SoundMeta, EncodeVolume, Less, LoadAll, VolumeKey, AllocKey, SpaceIsHeld, HeldApart, NoStrangers, HasAllocRecord, Matching;
    var keys := Matching(order, VOLUME_PREFIX);
    assert forall i :: 0 <= i < |keys| ==> keys[i] in s.store && VOLUME_PREFIX <= keys[i] by {
      assert forall i :: 0 <= i < |keys| ==> keys[i] in keys;
    }
    var owners := Owners(disks, s, keys);
    assert forall i :: 0 <= i < |keys| ==> OnRecord(disks, s, owners[i]);
    LoadAllIsFaithful(s, keys, owners);
    MatchingDistinct(order, VOLUME_PREFIX);
    OwnersDistinct(keys, owners);
    forall v <- s.volumes
      ensures v in owners
    {
      assert OnRecord(disks, s, v);
      VolumeKeyHasPrefix(v.id);
      assert VolumeKey(v.id) in keys;
      OwnerOf(s.volumes, keys, owners, v);
    }
  }

  lemma OwnersDistinct(keys: seq<string>, owners: seq<Volume>)
    requires Distinct(keys) && |owners| == |keys|
    requires forall i :: 0 <= i < |keys| ==> keys[i] == VolumeKey(owners[i].id)
    ensures LifecycleRuns.DistinctIds(owners)
  {
    hide VolumeKey;
    forall i, j | 0 <= i < j < |keys|
      ensures owners[i].id != owners[j].id
    {
      assert keys[i] != keys[j];
    }
  }

  lemma OwnerOf(volumes: seq<Volume>, keys: seq<string>, owners: seq<Volume>, v: Volume)
    requires LifecycleRuns.DistinctIds(volumes) && v in volumes && VolumeKey(v.id) in keys && |owners| == |keys|
    requires forall i :: 0 <= i < |keys| ==> owners[i] in volumes && keys[i] == VolumeKey(owners[i].id)
    ensures v in owners
  {
    hide VolumeKey;
    var i :| 0 <= i < |keys| && keys[i] == VolumeKey(v.id);
    KeysDistinct(owners[i].id, v.id);
    assert owners[i] == v;
  }

  lemma VolumeKeyHasPrefix(id: Uuid)
    ensures VOLUME_PREFIX <= VolumeKey(id)
  {
  }

  ghost predicate Distinct(keys: seq<string>) {
    forall i, j :: 0 <= i < j < |keys| ==> keys[i] != keys[j]
  }

  lemma {:induction false} MatchingDistinct(keys: seq<string>, p: string)
    requires Sorted(keys)
    ensures Distinct(Matching(keys, p))
  {
    hide Less;
    if keys != [] {
      var n := |keys| - 1;
      var r := Matching(keys[..n], p);
      MatchingDistinct(keys[..n], p);
      forall i | 0 <= i < |r|
        ensures r[i] != keys[n]
      {
        assert r[i] in r;
        var j :| 0 <= j < n && keys[j] == r[i];
        LessIrreflexive(keys[n]);
      }
      assert Distinct(r + [keys[n]]);
    }
  }
}
