/**
 The fixed-size block pool. Its free list and its list of all blocks run through one and the same `next` field, so
 giving a block back rewires the list of all blocks behind it. The pool stays safe; it may forget blocks.
 */
module MemoryPool {

  /** The memory a block stands for; the pool's client holds these. */
  class Data {
    constructor () {
    }
  }

  class Block {
    const data: Data
    var inUse: bool
    var next: Block?

    constructor (data: Data, inUse: bool)
      ensures this.data == data && this.inUse == inUse && next == null
    {
      this.data, this.inUse, this.next := data, inUse, null;
    }
  }

  method NewBlock(inUse: bool) returns (block: Block)
    ensures fresh(block) && fresh(block.data) && block.inUse == inUse
  {
    var data := new Data();
    block := new Block(data, inUse);
  }

  ghost predicate Distinct(s: seq<Block>) {
    forall i, j :: 0 <= i < j < |s| ==> s[i] != s[j]
  }

  /** Following `next` from `head` gives exactly `s` and then ends. */
  ghost predicate Chain(head: Block?, s: seq<Block>)
    reads s
  {
    && head == (if s == [] then null else s[0])
    && forall i {:trigger s[i].next} :: 0 <= i < |s| ==> s[i].next == (if i + 1 < |s| then s[i + 1] else null)
  }

  /** A new block in front of a chain. */
  lemma ChainCons(head: Block?, s: seq<Block>, block: Block)
    requires Chain(head, s) && Distinct(s) && block !in s && block.next == head
    ensures Chain(block, [block] + s) && Distinct([block] + s)
  {
  }

  /** Two chains that meet stay together from there on. */
  lemma {:induction false} ChainsMerge(a: Block?, s: seq<Block>, b: Block?, t: seq<Block>, i: nat, k: nat, n: nat)
    requires Chain(a, s) && Chain(b, t) && i < |s| && k < |t| && s[i] == t[k] && i + n < |s|
    ensures k + n < |t| && s[i + n] == t[k + n]
  {
    if n > 0 {
      ChainsMerge(a, s, b, t, i, k, n - 1);
      assert s[i + n - 1].next == t[k + n - 1].next;
    }
  }

  /** No two blocks stand for the same memory. */
  ghost predicate OwnData(blocks: set<Block>) {
    forall b <- blocks, c <- blocks :: b.data == c.data ==> b == c
  }

  ghost function DataOf(s: set<Block>): set<Data> {
    set b | b in s :: b.data
  }

  lemma DataOfPlus(blocks: set<Block>, s: set<Block>, block: Block)
    requires OwnData(blocks) && s <= blocks && block !in s && (block in blocks || forall b <- blocks :: b.data != block.data)
    ensures block.data !in DataOf(s) && DataOf(s + {block}) == DataOf(s) + {block.data}
    ensures DataOf((s + {block}) - {block}) == DataOf(s + {block}) - {block.data}
    ensures OwnData(blocks + {block})
  {
    assert s + {block} - {block} == s;
  }

  /** What the list of all blocks leaves out once it goes on from position `i` into the free list. */
  lemma CutOff(blocks: set<Block>, all: seq<Block>, free: seq<Block>, used: set<Block>, i: nat)
    requires i < |all| && Distinct(all) && all[i] !in free
    requires (forall b <- all :: b in blocks) && (forall b <- free :: b in all) && (forall b <- blocks :: b in used <==> b !in free)
    ensures var after := all[..i + 1] + free;
      (set b | b in blocks && b !in after) ==
      (set b | b in blocks && b !in all) + set j | i < j < |all| && all[j] in used :: all[j]
  {
    var after := all[..i + 1] + free;
    forall b <- blocks
      ensures b !in after <==> b !in all || exists j :: i < j < |all| && all[j] == b && b in used
    {
      if b in all {
        var k :| 0 <= k < |all| && all[k] == b;
        if k <= i {
          assert after[k] == b;
        }
      }
    }
  }

  function Max(a: nat, b: nat): nat {
    if a >= b then a else b
  }

  class Pool {
    const initialBlocks: nat
    const maxBlocks: nat
    var freeBlocks: Block?
    var allBlocks: Block?
    var currentBlocks: nat

    /** Every block ever made, the free list, and what a walk of the list of all blocks sees. */
    ghost var blocks: set<Block>
    ghost var free: seq<Block>
    ghost var all: seq<Block>

    ghost predicate Valid()
      reads this, blocks
    {
      Lists() && Records()
    }

    /** Both walks end, and each passes only blocks of the pool. */
    ghost predicate Lists()
      reads this, blocks
    {
      && (forall b <- free :: b in all) && (forall b <- all :: b in blocks)
      && Distinct(free) && Distinct(all)
      && Chain(freeBlocks, free) && Chain(allBlocks, all)
    }

    /** A block is in use or free, and the blocks are counted. */
    ghost predicate Records()
      reads this, blocks
    {
      && (forall b <- blocks :: b.inUse <==> b !in free)
      && OwnData(blocks)
      && currentBlocks == |blocks| <= Max(initialBlocks, maxBlocks)
    }

    /** What clients hold: handed out and not taken back. */
    ghost function Live(): set<Data>
      reads this, blocks
    {
      DataOf(Used())
    }

    ghost function Used(): set<Block>
      reads this, blocks
    {
      set b | b in blocks && b.inUse
    }

    /** Blocks that no walk of the list of all blocks comes by any more; they are all in use. */
    ghost function Lost(): set<Block>
      reads this
    {
      set b | b in blocks && b !in all
    }

    /** Creates the pool and its first blocks, as many as memory allows. */
    constructor (initialBlocks: nat, maxBlocks: nat, available: nat)
      ensures Valid() && fresh(blocks) && Live() == {}
      ensures this.initialBlocks == initialBlocks && this.maxBlocks == maxBlocks
      ensures currentBlocks == |free| == if available < initialBlocks then available else initialBlocks
      ensures all == free
    {
      this.initialBlocks, this.maxBlocks := initialBlocks, maxBlocks;
      freeBlocks, allBlocks, currentBlocks := null, null, 0;
      blocks, free, all := {}, [], [];
      new;
      while currentBlocks < initialBlocks && currentBlocks < available
        invariant Valid() && fresh(blocks) && all == free && Live() == {}
        invariant currentBlocks == |free| <= initialBlocks && currentBlocks <= available
      {
        hide Valid, Live;
        Preallocate();
      }
    }

    /** One round of the constructor's loop. */
    method Preallocate()
      requires Valid() && all == free && currentBlocks < initialBlocks
      modifies this
      ensures Valid() && all == free && fresh(blocks - old(blocks)) && Live() == old(Live())
      ensures |free| == |old(free)| + 1 && currentBlocks == old(currentBlocks) + 1
    {
      hide Valid, Live;
      var block := NewBlock(false);
      NewData(block);
      EnlistFree(block);
    }

    method EnlistFree(block: Block)
      requires Valid() && all == free && currentBlocks < initialBlocks && !block.inUse && NotMine(block)
      modifies this, block`next
      ensures Valid() && all == free && blocks == old(blocks) + {block} && Live() == old(Live())
      ensures |free| == |old(free)| + 1 && currentBlocks == old(currentBlocks) + 1
    {
      hide Lists, OwnData, DataOf;
      DataOfPlus(blocks, Used(), block);
      LinkFree(block);
      assert Used() == old(Used());
    }

    /** The block goes on both lists, the second link overwriting the first. */
    method LinkFree(block: Block)
      requires Lists() && all == free && block !in blocks
      modifies this`freeBlocks, this`allBlocks, this`free, this`all, this`blocks, this`currentBlocks, block`next
      ensures Lists() && all == free == [block] + old(free) && blocks == old(blocks) + {block}
      ensures currentBlocks == old(currentBlocks) + 1
    {
      hide Chain, Distinct;
      block.next := freeBlocks;
      freeBlocks := block;
      block.next := allBlocks;
      ChainCons(allBlocks, all, block);
      allBlocks := block;
      currentBlocks := currentBlocks + 1;
      free, all, blocks := [block] + free, [block] + all, blocks + {block};
    }

    ghost predicate NotMine(block: Block)
      reads this
    {
      block !in blocks && forall b <- blocks :: b.data != block.data
    }

    /** Memory that was just allocated belongs to no block of the pool. */
    twostate lemma NewData(new block: Block)
      requires old(Valid()) && unchanged(this) && fresh(block) && fresh(block.data)
      ensures NotMine(block)
    {
    }

    /**
     `xsan_memory_pool_alloc`: what it hands out is not held by anyone; it fails only with the free list empty and
     either the limit reached or memory exhausted.
     */
    method Alloc(memory: bool) returns (p: Data?)
      requires Valid()
      modifies this, blocks
      ensures Valid() && fresh(blocks - old(blocks))
      ensures p == null <==> old(free) == [] && (old(currentBlocks) >= maxBlocks || !memory)
      ensures p != null ==> p !in old(Live()) && Live() == old(Live()) + {p}
      ensures p == null ==> Live() == old(Live()) && free == old(free) && all == old(all)
      ensures Lost() == old(Lost())
      ensures old(free) != [] ==> p == old(free)[0].data && free == old(free)[1..] && all == old(all) && blocks == old(blocks)
    {
      p := null;
      if freeBlocks != null {
        p := TakeFree();
      } else if currentBlocks < maxBlocks && memory {
        p := MakeBlock();
      }
    }

    method TakeFree() returns (p: Data)
      requires Valid() && freeBlocks != null
      modifies this, blocks
      ensures Valid() && p !in old(Live()) && Live() == old(Live()) + {p}
      ensures old(free) != [] && p == old(free)[0].data && free == old(free)[1..] && all == old(all) && blocks == old(blocks)
    {
      hide OwnData, DataOf;
      var block := freeBlocks;
      DataOfPlus(blocks, Used(), block);
      freeBlocks := block.next;
      block.inUse := true;
      free := free[1..];
      p := block.data;
      assert Used() == old(Used()) + {block};
    }

    method MakeBlock() returns (p: Data)
      requires Valid() && free == [] && currentBlocks < maxBlocks
      modifies this
      ensures Valid() && fresh(blocks - old(blocks)) && p !in old(Live()) && Live() == old(Live()) + {p}
      ensures free == [] && Lost() == old(Lost())
    {
      hide Valid, Live, Lost;
      var block := NewBlock(true);
      NewData(block);
      Enlist(block);
      p := block.data;
    }

    method Enlist(block: Block)
      requires Valid() && free == [] && currentBlocks < maxBlocks && block.inUse && NotMine(block)
      modifies this, block`next
      ensures Valid() && blocks == old(blocks) + {block} && free == [] && Lost() == old(Lost())
      ensures block.data !in old(Live()) && Live() == old(Live()) + {block.data}
    {
      hide Lists, OwnData, DataOf;
      DataOfPlus(blocks, Used(), block);
      LinkUsed(block);
      assert Used() == old(Used()) + {block};
    }

    method LinkUsed(block: Block)
      requires Lists() && block !in blocks
      modifies this`allBlocks, this`all, this`blocks, this`currentBlocks, block`next
      ensures Lists() && all == [block] + old(all) && blocks == old(blocks) + {block}
      ensures currentBlocks == old(currentBlocks) + 1
    {
      hide Chain, Distinct;
      block.next := allBlocks;
      ChainCons(allBlocks, all, block);
      allBlocks := block;
      currentBlocks := currentBlocks + 1;
      all, blocks := [block] + all, blocks + {block};
    }

    /**
     `xsan_memory_pool_free`: takes the block back exactly when it is in use and a walk of the list of all blocks
     still comes by it. The walk then continues from that block into the free list.
     */
    method Free(p: Data)
      requires Valid()
      modifies this, blocks
      ensures Valid() && blocks == old(blocks)
      ensures forall i :: 0 <= i < |old(all)| && old(all)[i].data == p && old(all[i].inUse) ==>
        && free == [old(all)[i]] + old(free)
        && all == old(all)[..i + 1] + old(free)
        && Live() == old(Live()) - {p}
      ensures (forall i :: 0 <= i < |old(all)| && old(all)[i].data == p ==> !old(all[i].inUse)) ==>
        free == old(free) && all == old(all) && Live() == old(Live())
      // A free that is honoured loses exactly the blocks in use behind its own; a lost block stays lost.
      ensures forall i :: 0 <= i < |old(all)| && old(all)[i].data == p && old(all[i].inUse) ==>
        Lost() == old(Lost()) + set j | i < j < |old(all)| && old(all[j].inUse) :: old(all)[j]
      ensures old(Lost()) <= Lost()
    {
      var block := allBlocks;
      ghost var i := 0;
      while block != null
        invariant 0 <= i <= |all|
        invariant block == if i < |all| then all[i] else null
        invariant forall j :: 0 <= j < i ==> all[j].data != p
        decreases |all| - i
      {
        if block.data == p {
          if block.inUse {
            TakeBack(block, i);
          }
          return;
        }
        block := block.next;
        i := i + 1;
      }
    }

    method TakeBack(block: Block, ghost i: nat)
      requires Valid() && i < |all| && block == all[i] && block.inUse
      modifies this`freeBlocks, this`free, this`all, block
      ensures Valid() && Live() == old(Live()) - {block.data}
      ensures free == [block] + old(free) && all == old(all)[..i + 1] + old(free)
      ensures Lost() == old(Lost()) + set j | i < j < |old(all)| && old(all[j].inUse) :: old(all)[j]
    {
      hide OwnData, DataOf;
      KeptApart(i);
      CutOff(blocks, all, free, Used(), i);
      DataOfPlus(blocks, Used() - {block}, block);
      block.inUse := false;
      block.next := freeBlocks;
      freeBlocks := block;
      all := all[..i + 1] + free;
      free := [block] + free;
      assert old(Used()) - {block} + {block} == old(Used()) && Used() == old(Used()) - {block};
    }

    /** A lost block is in use, and its own free changes nothing: no block on the list carries its memory. */
    lemma LostIsLive(block: Block)
      requires Valid() && block in Lost()
      ensures block.data in Live() && forall i :: 0 <= i < |all| ==> all[i].data != block.data
    {
      assert block.inUse;
      forall i | 0 <= i < |all|
        ensures all[i].data != block.data
      {
        assert all[i] in all;
      }
    }

    /** In the list of all blocks, nothing up to a block in use is free. */
    lemma KeptApart(i: nat)
      requires Valid() && i < |all| && all[i].inUse
      ensures forall j :: 0 <= j <= i ==> all[j] !in free
    {
      forall j | 0 <= j <= i
        ensures all[j] !in free
      {
        if all[j] in free {
          var k :| 0 <= k < |free| && free[k] == all[j];
          ChainsMerge(allBlocks, all, freeBlocks, free, j, k, i - j);
        }
      }
    }

    /** The walk `xsan_memory_pool_destroy` makes: it ends, and it releases what the list of all blocks still shows. */
    method Destroy() returns (released: seq<Block>)
      requires Valid()
      ensures released == all
    {
      released := [];
      var block := allBlocks;
      while block != null
        invariant |released| <= |all| && released == all[..|released|]
        invariant block == if |released| < |all| then all[|released|] else null
        decreases |all| - |released|
      {
        released := released + [block];
        block := block.next;
      }
    }
  }

  datatype PoolOp = AllocOp(memory: bool) | FreeOp(p: Data)

  /** Whatever is done with the pool afterwards, a lost block is never handed out again and never found by a free. */
  method LostForGood(pool: Pool, ghost block: Block, ops: seq<PoolOp>) returns (handedOut: seq<Data>)
    requires pool.Valid() && block in pool.Lost()
    modifies pool, pool.blocks
    ensures pool.Valid() && block in pool.Lost() && block.data in pool.Live() && block.data !in handedOut
  {
    hide pool.Lost;
    handedOut := [];
    pool.LostIsLive(block);
    for i := 0 to |ops|
      invariant pool.Valid() && block in pool.Lost() && block.data in pool.Live() && block.data !in handedOut
      invariant fresh(pool.blocks - old(pool.blocks))
    {
      hide pool.Valid, pool.Live;
      match ops[i] {
        case AllocOp(memory) =>
          var p := pool.Alloc(memory);
          if p != null {
            handedOut := handedOut + [p];
          }
        case FreeOp(p) =>
          pool.Free(p);
      }
      pool.LostIsLive(block);
    }
  }

  /**
   A pool of two blocks: hand out both, give both back. Only one can be handed out again, because giving back the
   first cut the second off the list on which a free looks for its block.
   */
  method SecondBlockIsLost() returns (again: Data?, lost: Data?)
    ensures again != null && lost == null
  {
    var pool := new Pool(2, 2, 2);
    hide pool.Valid, pool.Live;
    ghost var x, y := pool.free[0], pool.free[1];
    assert pool.all == [x, y] && x != y;
    var a := pool.Alloc(true);
    var b := pool.Alloc(true);
    pool.Free(a);
    assert pool.all == [x];
    pool.Free(b);
    assert pool.free == [x];
    again := pool.Alloc(true);
    lost := pool.Alloc(true);
  }
}
