/**
 * The accounting allocator of src/utils/memory.c: a header list of the blocks in use and running totals.
 */
module DebugHeap {
  import opened LinkedList
  import opened MachineInts

  const MAGIC: uint32 := 0x58534146
  const FREED_MAGIC: uint32 := 0x46524545

  /** A block's header: its size and its mark. The links are the node's. */
  datatype Info = Info(size: uint64, magic: uint32)

  type Block = Node<Info>

  /** The bytes of several blocks together. */
  function Bytes(infos: seq<Info>): nat {
    if infos == [] then 0 else infos[0].size + Bytes(infos[1..])
  }

  lemma {:induction false} BytesOfTwo(a: seq<Info>, b: seq<Info>)
    ensures Bytes(a + b) == Bytes(a) + Bytes(b)
  {
    if a == [] {
      assert a + b == b;
    } else {
      BytesOfTwo(a[1..], b);
      assert (a + b)[1..] == a[1..] + b;
    }
  }

  lemma BytesWithout(a: seq<Info>, i: nat)
    requires i < |a|
    ensures Bytes(a[..i] + a[i + 1..]) + a[i].size == Bytes(a)
  {
    BytesOfTwo(a[..i], a[i + 1..]);
    BytesOfTwo(a[..i], a[i..]);
    assert a == a[..i] + a[i..] && a[i..][1..] == a[i + 1..];
  }

  ghost predicate IsMax(m: int, s: seq<uint64>) {
    m in s && forall x <- s :: x <= m
  }

  datatype Stats = Stats(
    totalAllocated: uint64,
    totalFreed: uint64,
    currentAllocated: uint64,
    peakAllocated: uint64,
    allocationCount: uint64,
    freeCount: uint64)

  /** What has really happened: bytes handed out and taken back, blocks handed out, every level of use. */
  datatype Ledger = Ledger(given: nat, returned: nat, takings: nat, levels: seq<uint64>)

  /** How the counters stand to the truth when `bytes` bytes in `count` blocks are in use. */
  ghost predicate Agrees(debug: bool, s: Stats, truth: Ledger, bytes: nat, count: nat) {
    && truth.given == bytes + truth.returned
    && bytes < TWO64
    && count <= truth.takings
    && s.totalAllocated == Wrap64(truth.given)
    && s.totalFreed == (if debug then Wrap64(truth.returned) else 0)
    && s.currentAllocated == (if debug then bytes else Wrap64(truth.given))
    && s.allocationCount == Wrap64(truth.takings)
    && s.freeCount == Wrap64(truth.takings - count)
    && truth.levels != [] && truth.levels[|truth.levels| - 1] == s.currentAllocated
    && IsMax(s.peakAllocated, truth.levels)
  }

  function CountIn(s: Stats, size: uint64): Stats {
    var current := Wrap64(s.currentAllocated + size);
    s.(totalAllocated := Wrap64(s.totalAllocated + size),
       currentAllocated := current,
       peakAllocated := if current > s.peakAllocated then current else s.peakAllocated,
       allocationCount := Wrap64(s.allocationCount + 1))
  }

  function CountOut(debug: bool, s: Stats, size: uint64): Stats {
    var counted := s.(freeCount := Wrap64(s.freeCount + 1));
    if !debug then counted
    else counted.(totalFreed := Wrap64(s.totalFreed + size), currentAllocated := Wrap64(s.currentAllocated - size))
  }

  ghost function Given(truth: Ledger, size: nat, level: uint64): Ledger {
    Ledger(truth.given + size, truth.returned, truth.takings + 1, truth.levels + [level])
  }

  ghost function TakenBack(truth: Ledger, size: nat, level: uint64): Ledger {
    Ledger(truth.given, truth.returned + size, truth.takings, truth.levels + [level])
  }

  lemma CountInAgrees(debug: bool, s: Stats, truth: Ledger, bytes: nat, count: nat, size: uint64)
    requires Agrees(debug, s, truth, bytes, count) && bytes + size < TWO64
    ensures var t := CountIn(s, size); Agrees(debug, t, Given(truth, size, t.currentAllocated), bytes + size, count + 1)
  {
    hide Wrap64;
    WrapAdds(truth.given, size);
    WrapAdds(truth.takings, 1);
  }

  lemma CountOutAgrees(debug: bool, s: Stats, truth: Ledger, bytes: nat, count: nat, size: uint64)
    requires Agrees(debug, s, truth, bytes, count) && size <= bytes && 0 < count
    ensures var t := CountOut(debug, s, size); Agrees(debug, t, TakenBack(truth, size, t.currentAllocated), bytes - size, count - 1)
  {
    hide Wrap64;
    WrapAdds(truth.returned, size);
    WrapAdds(truth.takings - count, 1);
    assert s.currentAllocated in truth.levels;
    assert truth.takings - count + 1 == truth.takings - (count - 1);
  }

  /** In debug mode the level of use is the bytes in use, and what came in less what went out. */
  lemma DebugCountersConserve(s: Stats, truth: Ledger, bytes: nat, count: nat)
    requires Agrees(true, s, truth, bytes, count)
    ensures s.currentAllocated == bytes == Wrap64(s.totalAllocated - s.totalFreed)
    ensures Wrap64(s.allocationCount - s.freeCount) == Wrap64(count)
  {
    hide Wrap64;
    WrapSubtracts(truth.given, truth.returned);
    WrapSubtracts(truth.takings, truth.takings - count);
  }

  /** Outside debug mode freeing never lowers the level, so it is the bytes in use only while
      nothing (or a whole number of 64-bit turns) has come back. */
  lemma LevelIsInUseIff(debug: bool, s: Stats, truth: Ledger, bytes: nat, count: nat)
    requires Agrees(debug, s, truth, bytes, count)
    ensures s.currentAllocated == bytes <==> debug || Wrap64(truth.returned) == 0
  {
    hide Wrap64;
    if !debug {
      var w := Wrap64(truth.returned);
      WrapAdds(truth.returned, bytes);
      if w + bytes >= TWO64 {
        WrapPeriodic(w + bytes, 1);
      }
    }
  }

  class Heap {
    const debug: bool
    var allocatedBlocks: Node?<Info>
    var stats: Stats
    ghost var live: seq<Block>        // blocks in use, newest first
    ghost var truth: Ledger

    ghost predicate Blocks()
      reads this, live
    {
      && (forall b <- live :: b.value.magic == MAGIC && b.value.size > 0)
      && Distinct(live)
      && (debug ==> Linked(live))
      && allocatedBlocks == (if debug && live != [] then live[0] else null)
    }

    ghost predicate Valid()
      reads this, live
    {
      Blocks() && Agrees(debug, stats, truth, Bytes(Values(live)), |live|)
    }

    constructor (debug: bool)
      ensures Valid() && live == [] && truth == Ledger(0, 0, 0, [0]) && this.debug == debug
    {
      this.debug, allocatedBlocks, stats := debug, null, Stats(0, 0, 0, 0, 0, 0);
      live, truth := [], Ledger(0, 0, 0, [0]);
    }

    /** `xsan_malloc`; `granted` says whether the C allocator finds room. */
    method Malloc(size: uint64, granted: bool) returns (p: Node?<Info>)
      requires Valid()
      requires granted ==> Bytes(Values(live)) + size < TWO64   // blocks in use share one address space
      modifies this, live
      ensures Valid()
      ensures p != null <==> size != 0 && granted
      ensures p == null ==> unchanged(this) && unchanged(live)
      ensures p != null ==> fresh(p) && p.value == Info(size, MAGIC) && live == [p] + old(live)
      ensures p != null ==> truth == Given(old(truth), size, stats.currentAllocated)
      ensures p != null ==> Values(live) == [p.value] + old(Values(live))
    {
      hide Linked, Values, Distinct, Agrees, Bytes;
      if size == 0 || !granted {
        return null;
      }
      var header := new Node(Info(size, MAGIC));
      p := header;
      ghost var infos := Values(live);
      LinkFirst(header);
      CountInAgrees(debug, stats, truth, Bytes(infos), |infos|, size);
      BytesOfTwo([header.value], infos);
      OneBlock(header.value);
      stats := CountIn(stats, size);
      truth := Given(truth, size, stats.currentAllocated);
    }

    method LinkFirst(header: Block)
      requires Blocks() && header !in live && header.next == null && header.prev == null
      requires header.value.magic == MAGIC && header.value.size > 0
      modifies this`allocatedBlocks, this`live, live`prev, header`prev, header`next
      ensures Blocks() && live == [header] + old(live)
      ensures Values(live) == [header.value] + old(Values(live))
    {
      hide Linked, Spliced, Values;
      ghost var was, infos := live, Values(live);
      if debug {
        LinkInFront(header);
        SplicedIsLinked(was, 0, header);
      } else {
        assert Distinct([header] + was);
      }
      live := [header] + live;
      assert live == was[..0] + [header] + was[0..];
      SplicedValues(was, 0, header, infos);
    }

    method LinkInFront(header: Block)
      requires debug && Blocks() && header !in live && header.next == null && header.prev == null
      modifies this`allocatedBlocks, live`prev, header`prev, header`next
      ensures Spliced(live, 0, header) && allocatedBlocks == header && Values(live) == old(Values(live))
    {
      header.next := allocatedBlocks;
      header.prev := null;
      if allocatedBlocks != null {
        allocatedBlocks.prev := header;
      }
      allocatedBlocks := header;
    }

    /** `xsan_free`. In debug mode a block that carries no valid mark is reported and left alone. */
    method Free(p: Node?<Info>, ghost i: nat)
      requires Valid()
      requires p != null ==> if p in live then i < |live| && live[i] == p else debug && p.value.magic != MAGIC
      modifies this, live
      ensures Valid()
      ensures p == null || p !in old(live) ==> unchanged(this) && unchanged(live)
      ensures p != null && p in old(live) ==> live == old(live)[..i] + old(live)[i + 1..]
      ensures p != null && p in old(live) ==> truth == TakenBack(old(truth), old(p.value.size), stats.currentAllocated)
      ensures p != null && p in old(live) ==> Values(live) == old(Values(live))[..i] + old(Values(live))[i + 1..]
      ensures p != null && p in old(live) && debug ==> p.value.magic == FREED_MAGIC
    {
      hide Linked, Values, Distinct, Agrees, Bytes;
      if p == null || (debug && p.value.magic != MAGIC) {
        return;
      }
      ghost var infos := Values(live);
      var size := p.value.size;
      Unlink(p, i);
      BytesWithout(infos, i);
      CountOutAgrees(debug, stats, truth, Bytes(infos), |infos|, size);
      stats := CountOut(debug, stats, size);
      truth := TakenBack(truth, size, stats.currentAllocated);
      if debug {
        p.value := p.value.(magic := FREED_MAGIC);
      }
    }

    static lemma RestDistinct(s: seq<Block>, i: nat)
      requires Distinct(s) && i < |s|
      ensures Distinct(s[..i] + s[i + 1..]) && s[i] !in s[..i] + s[i + 1..]
    {
    }

    method Unlink(p: Block, ghost i: nat)
      requires Blocks() && i < |live| && live[i] == p
      modifies this`allocatedBlocks, this`live, live`prev, live`next
      ensures Blocks() && live == old(live)[..i] + old(live)[i + 1..] && p !in live
      ensures Values(live) == old(Values(live))[..i] + old(Values(live))[i + 1..]
      ensures p.value == old(p.value)
    {
      hide Linked, Bypassed, Values, Distinct;
      ghost var was, infos := live, Values(live);
      if debug {
        Bypass(p, live, i);
        if p.prev == null {
          allocatedBlocks := p.next;
        }
        BypassedIsLinked(was, i);
      } else {
        RestDistinct(was, i);
      }
      live := was[..i] + was[i + 1..];
      RestEnds(was, i);
      BypassedValues(was, i, infos);
    }
  }

  lemma OneBlock(info: Info)
    ensures Bytes([info]) == info.size
  {
  }

  /** Outside debug mode: one byte allocated and freed leaves a level of one byte with nothing in use. */
  method LevelStaysUp() returns (heap: Heap)
    ensures heap.Valid() && heap.live == [] && heap.stats.currentAllocated == 1
  {
    heap := new Heap(false);
    var p := heap.Malloc(1, true);
    heap.Free(p, 0);
  }
}
