/** The chained hash table behind the pending-I/O indexes, against the finite map it stands for. */
module HashTable {
  import opened Outcomes

  const DEFAULT_CAPACITY: nat := 16

  type Positive = n: nat | n > 0 witness 1

  class Entry<K, V> {
    const key: K
    var value: V
    var next: Entry?<K, V>

    constructor (key: K, value: V, next: Entry?<K, V>)
      ensures this.key == key && this.value == value && this.next == next
    {
      this.key, this.value, this.next := key, value, next;
    }
  }

  /** Following `next` from `head` gives exactly `s` and then ends. */
  ghost predicate Chain<K, V>(head: Entry?<K, V>, s: seq<Entry<K, V>>)
    reads s
  {
    && head == (if s == [] then null else s[0])
    && forall i {:trigger s[i].next} :: 0 <= i < |s| ==> s[i].next == (if i + 1 < |s| then s[i + 1] else null)
  }

  ghost predicate KeysDiffer<K, V>(s: seq<Entry<K, V>>) {
    forall i, j :: 0 <= i < j < |s| ==> s[i].key != s[j].key
  }

  ghost predicate HasKey<K, V>(s: seq<Entry<K, V>>, key: K) {
    exists e <- s :: e.key == key
  }

  /** A new entry in front of a chain that does not have its key. */
  lemma ChainCons<K, V>(head: Entry?<K, V>, s: seq<Entry<K, V>>, e: Entry<K, V>)
    requires Chain(head, s) && KeysDiffer(s) && e.next == head && !HasKey(s, e.key)
    ensures Chain(e, [e] + s) && KeysDiffer([e] + s)
  {
    assert forall i :: 0 <= i < |s| ==> s[i] in s;
  }

  class Table<K(==), V(==)> {
    const capacity: Positive
    const hash: K -> nat
    const buckets: array<Entry?<K, V>>
    var size: nat

    ghost var chains: seq<seq<Entry<K, V>>>
    ghost var entries: set<Entry<K, V>>
    ghost var contents: map<K, V>

    function Index(key: K): (b: nat)
      ensures b < capacity
    {
      hash(key) % capacity
    }

    /** A bucket's chain is well linked and holds items of the map that belong there, each key once. */
    ghost predicate BucketOk(b: nat)
      reads this, buckets, entries
      requires b < |chains| == buckets.Length
    {
      && (forall e <- chains[b] :: e in entries && Index(e.key) == b && e.key in contents && contents[e.key] == e.value)
      && Chain(buckets[b], chains[b]) && KeysDiffer(chains[b])
    }

    /** Every key of the map is in its bucket. */
    ghost predicate Complete()
      reads this
      requires |chains| == capacity
    {
      forall k <- contents :: HasKey(chains[Index(k)], k)
    }

    ghost predicate Valid()
      reads this, buckets, entries
    {
      && buckets.Length == capacity == |chains|
      && (forall b :: 0 <= b < capacity ==> BucketOk(b))
      && Complete()
      && size == |contents|
    }

    constructor (initialCapacity: nat, hash: K -> nat)
      ensures Valid() && contents == map[] && this.hash == hash && fresh(buckets) && entries == {}
    {
      capacity := if initialCapacity > 0 then initialCapacity else DEFAULT_CAPACITY;
      this.hash := hash;
      buckets := new Entry?<K, V>[if initialCapacity > 0 then initialCapacity else DEFAULT_CAPACITY](_ => null);
      size := 0;
      chains := seq(if initialCapacity > 0 then initialCapacity else DEFAULT_CAPACITY, _ => []);
      entries, contents := {}, map[];
    }

    /** An entry's place. */
    ghost predicate At(index: nat, i: nat, entry: Entry<K, V>)
      reads this
    {
      index < |chains| && i < |chains[index]| && chains[index][i] == entry && entry in entries
    }

    /** The walk along a key's bucket that `get`, `put` and `remove` all make. */
    method Locate(key: K) returns (prev: Entry?<K, V>, entry: Entry?<K, V>, ghost i: nat)
      requires Valid()
      ensures entry == null <==> key !in contents
      ensures entry != null ==> At(Index(key), i, entry) && entry.key == key && entry.value == contents[key]
      ensures entry != null ==> if i == 0 then prev == null else prev != null && At(Index(key), i - 1, prev)
    {
      var index := Index(key);
      ghost var chain := chains[index];
      assert BucketOk(index);
      prev, entry, i := null, buckets[index], 0;
      while entry != null && entry.key != key
        invariant 0 <= i <= |chain|
        invariant entry == if i < |chain| then chain[i] else null
        invariant prev == if i > 0 then chain[i - 1] else null
        invariant forall j :: 0 <= j < i ==> chain[j].key != key
        decreases |chain| - i
      {
        prev, entry := entry, entry.next;
        i := i + 1;
      }
    }

    /** `xsan_hashtable_get`. */
    method Get(key: K) returns (r: Option<V>)
      requires Valid()
      ensures r == if key in contents then Some(contents[key]) else None
    {
      hide Valid;
      var _, entry, _ := Locate(key);
      r := if entry != null then Some(entry.value) else None;
    }

    /** `xsan_hashtable_put`: the only error is running out of memory for a new key. */
    method Put(key: K, value: V, memory: bool) returns (r: Result<()>)
      requires Valid()
      modifies this, buckets, entries
      ensures Valid() && fresh(entries - old(entries))
      ensures r == if key in old(contents) || memory then Ok(()) else Err(OutOfMemory)
      ensures contents == if r.Ok? then old(contents)[key := value] else old(contents)
    {
      hide Valid, Index;
      var _, entry, i := Locate(key);
      if entry != null {
        Update(entry, Index(key), i, value);
      } else if memory {
        Insert(key, value);
      } else {
        return Err(OutOfMemory);
      }
      return Ok(());
    }

    method Update(entry: Entry<K, V>, ghost index: nat, ghost i: nat, value: V)
      requires Valid() && At(index, i, entry)
      modifies this`contents, entry
      ensures Valid() && contents == old(contents)[entry.key := value]
    {
      hide Index, HasKey;
      assert BucketOk(index);
      entry.value := value;
      contents := contents[entry.key := value];
      forall b | 0 <= b < capacity
        ensures BucketOk(b)
      {
        assert old(BucketOk(b));
      }
    }

    method Insert(key: K, value: V)
      requires Valid() && key !in contents
      modifies this, buckets
      ensures Valid() && fresh(entries - old(entries)) && contents == old(contents)[key := value]
    {
      hide Chain, KeysDiffer, Index;
      var index := Index(key);
      assert BucketOk(index);
      var entry := new Entry(key, value, buckets[index]);
      ChainCons(buckets[index], chains[index], entry);
      buckets[index] := entry;
      size := size + 1;
      chains := chains[index := [entry] + chains[index]];
      entries := entries + {entry};
      contents := contents[key := value];
      forall b | 0 <= b < capacity
        ensures BucketOk(b)
      {
        assert old(BucketOk(b));
      }
      forall k <- contents
        ensures HasKey(chains[Index(k)], k)
      {
        if k == key {
          assert chains[index][0] == entry;
        } else {
          assert old(HasKey(chains[Index(k)], k));
        }
      }
    }

    /** `xsan_hashtable_remove`. */
    method Remove(key: K) returns (r: Result<()>)
      requires Valid()
      modifies this, buckets, entries
      ensures Valid() && entries == old(entries)
      ensures r == if key in old(contents) then Ok(()) else Err(NotFound)
      ensures contents == old(contents) - {key}
    {
      hide Valid, Index;
      var prev, entry, i := Locate(key);
      if entry == null {
        return Err(NotFound);
      }
      Unlink(key, prev, entry, i);
      return Ok(());
    }

    method Unlink(key: K, prev: Entry?<K, V>, entry: Entry<K, V>, ghost i: nat)
      requires Valid() && At(Index(key), i, entry) && entry.key == key
      requires if i == 0 then prev == null else prev != null && At(Index(key), i - 1, prev)
      modifies this`size, this`chains, this`contents, buckets, prev
      ensures Valid() && contents == old(contents) - {key}
    {
      hide Index, HasKey, Chain, KeysDiffer;
      var index := Index(key);
      ghost var chain := chains[index];
      ghost var rest := chain[..i] + chain[i + 1..];
      assert BucketOk(index);
      RestOfChain(chain, i);
      Bypass(index, prev, entry, chain, i);
      size := size - 1;
      chains := chains[index := rest];
      contents := contents - {key};
      forall b | 0 <= b < capacity
        ensures BucketOk(b)
      {
        assert old(BucketOk(b));
      }
      forall k <- contents
        ensures HasKey(chains[Index(k)], k)
      {
        assert old(HasKey(chains[Index(k)], k));
        if Index(k) == index {
          RestHasKey(chain, i, k);
        }
      }
    }

    /** Takes an entry out of its bucket's links. */
    method Bypass(index: nat, prev: Entry?<K, V>, entry: Entry<K, V>, ghost chain: seq<Entry<K, V>>, ghost i: nat)
      requires index < buckets.Length && i < |chain| && chain[i] == entry
      requires Chain(buckets[index], chain) && KeysDiffer(chain)
      requires if i == 0 then prev == null else prev == chain[i - 1]
      modifies buckets, prev
      ensures Chain(buckets[index], chain[..i] + chain[i + 1..])
      ensures forall b :: 0 <= b < buckets.Length && b != index ==> buckets[b] == old(buckets[b])
      ensures prev != null ==> prev.value == old(prev.value)
    {
      if prev != null {
        prev.next := entry.next;
      } else {
        buckets[index] := entry.next;
      }
      ghost var rest := chain[..i] + chain[i + 1..];
      forall j | 0 <= j < |rest|
        ensures rest[j].next == if j + 1 < |rest| then rest[j + 1] else null
      {
        var k := if j < i then j else j + 1;
        assert rest[j] == chain[k];
        assert chain[k].next == old(chain[k].next) || k == i - 1;
        assert old(chain[i].next) == if i + 1 < |chain| then chain[i + 1] else null;
      }
    }

    /** `xsan_hashtable_clear`: every chain is walked to its end and dropped. */
    method Clear()
      requires Valid()
      modifies this, buckets
      ensures Valid() && contents == map[] && entries == old(entries)
    {
      hide KeysDiffer, HasKey, Index;
      assert forall c :: 0 <= c < capacity ==> BucketOk(c);
      for b := 0 to capacity
        invariant buckets.Length == capacity == |chains| && chains == old(chains) && entries == old(entries)
        invariant forall c :: 0 <= c < b ==> buckets[c] == null
        invariant forall c :: b <= c < capacity ==> buckets[c] == old(buckets[c])
      {
        assert old(BucketOk(b));
        DropChain(buckets[b], chains[b]);
        buckets[b] := null;
      }
      size := 0;
      chains := seq(capacity, _ => []);
      contents := map[];
      forall b | 0 <= b < capacity
        ensures BucketOk(b)
      {
        EmptyChain<K, V>();
      }
    }
  }

  /** The walk that releases a chain's entries; it ends. */
  method DropChain<K, V>(head: Entry?<K, V>, ghost chain: seq<Entry<K, V>>)
    requires Chain(head, chain)
  {
    var entry := head;
    ghost var i := 0;
    while entry != null
      invariant 0 <= i <= |chain| && entry == if i < |chain| then chain[i] else null
      decreases |chain| - i
    {
      entry := entry.next;
      i := i + 1;
    }
  }

  lemma EmptyChain<K, V>()
    ensures Chain<K, V>(null, []) && KeysDiffer<K, V>([])
  {
  }

  lemma RestOfChain<K, V>(s: seq<Entry<K, V>>, i: nat)
    requires i < |s| && KeysDiffer(s)
    ensures var rest := s[..i] + s[i + 1..];
      && KeysDiffer(rest)
      && forall e <- rest :: e in s && e != s[i] && e.key != s[i].key
  {
    var rest := s[..i] + s[i + 1..];
    forall j | 0 <= j < |rest|
      ensures rest[j] in s && rest[j].key != s[i].key
    {
      assert rest[j] == s[if j < i then j else j + 1];
    }
  }

  lemma RestHasKey<K, V>(s: seq<Entry<K, V>>, i: nat, k: K)
    requires i < |s| && HasKey(s, k) && s[i].key != k
    ensures HasKey(s[..i] + s[i + 1..], k)
  {
    var rest := s[..i] + s[i + 1..];
    var j :| 0 <= j < |s| && s[j].key == k;
    assert rest[if j < i then j else j - 1] == s[j];
  }

  // ---------------------------------------------------------------- iteration

  /** All entries, bucket by bucket. */
  ghost function Flat<K, V>(chains: seq<seq<Entry<K, V>>>): seq<Entry<K, V>> {
    if chains == [] then [] else Flat(chains[..|chains| - 1]) + chains[|chains| - 1]
  }

  lemma FlatStep<K, V>(chains: seq<seq<Entry<K, V>>>, b: nat)
    requires b < |chains|
    ensures Flat(chains[..b + 1]) == Flat(chains[..b]) + chains[b]
  {
    assert chains[..b + 1][..b] == chains[..b];
  }

  lemma {:induction false} FlatHas<K, V>(chains: seq<seq<Entry<K, V>>>, e: Entry<K, V>)
    ensures e in Flat(chains) <==> exists c <- chains :: e in c
  {
    if chains != [] {
      FlatHas(chains[..|chains| - 1], e);
      assert chains == chains[..|chains| - 1] + [chains[|chains| - 1]];
    }
  }

  class Cursor<K(==), V(==)> {
    const table: Table<K, V>
    var bucket: nat
    var current: Entry?<K, V>
    ghost var i: nat

    ghost predicate Valid()
      reads this, table, table.buckets, table.entries
    {
      && table.Valid()
      && if current == null then bucket == 0 || bucket == table.capacity
         else 1 <= bucket <= table.capacity && table.At(bucket - 1, i, current)
    }

    /** The entries seen so far. */
    ghost function Seen(): seq<Entry<K, V>>
      reads this, table, table.buckets, table.entries
      requires Valid()
    {
      if current == null then Flat(table.chains[..bucket])
      else Flat(table.chains[..bucket - 1]) + table.chains[bucket - 1][..i + 1]
    }

    constructor (table: Table<K, V>)
      requires table.Valid()
      ensures Valid() && this.table == table && Seen() == []
    {
      this.table, bucket, current, i := table, 0, null, 0;
    }

    /** `xsan_hashtable_iter_next`: the next entry in order, or the end, for good. */
    method Next() returns (r: Option<(K, V)>)
      requires Valid()
      modifies this
      ensures Valid()
      ensures r.Some? ==> current != null && r.value == (current.key, current.value) && Seen() == old(Seen()) + [current]
      ensures r.None? ==> current == null && bucket == table.capacity && Seen() == old(Seen()) == Flat(table.chains)
    {
      hide Flat, table.Valid;
      ghost var chains := table.chains;
      ghost var before := Seen();
      AllBuckets();
      if current != null {
        Successor();
        current := current.next;
        i := i + 1;
      }
      while current == null
        invariant table.Valid() && bucket <= table.capacity
        invariant current == null ==> Flat(chains[..bucket]) == before
        invariant current != null ==> 1 <= bucket && table.At(bucket - 1, i, current) && Flat(chains[..bucket - 1]) + chains[bucket - 1][..i] == before
        decreases current == null, table.capacity - bucket
      {
        if bucket >= table.capacity {
          return None;
        }
        FirstOf(bucket);
        current := table.buckets[bucket];
        i := 0;
        bucket := bucket + 1;
      }
      assert chains[bucket - 1][..i + 1] == chains[bucket - 1][..i] + [current];
      return Some((current.key, current.value));
    }

    lemma SeenIsPrefix()
      requires Valid()
      ensures Seen() <= Flat(table.chains)
    {
      hide Flat;
      AllBuckets();
      hide table.Valid;
      FlatPrefix(table.chains, bucket);
      if current != null {
        FlatStep(table.chains, bucket - 1);
      }
    }

    lemma AllBuckets()
      requires table.Valid()
      ensures |table.chains| == table.capacity && table.chains[..table.capacity] == table.chains
    {
    }

    /** What a bucket starts with. */
    lemma FirstOf(b: nat)
      requires table.Valid() && b < table.capacity
      ensures b < |table.chains| && b < table.buckets.Length
      ensures table.chains[b][..0] == []
      ensures var first := table.buckets[b];
        if first == null then Flat(table.chains[..b + 1]) == Flat(table.chains[..b]) else table.At(b, 0, first)
    {
      assert table.BucketOk(b);
      FlatStep(table.chains, b);
    }

    /** Where the current entry's `next` leads: further down the bucket, or off its end. */
    lemma Successor()
      requires Valid() && current != null
      ensures var chain := table.chains[bucket - 1];
        if i + 1 < |chain| then current.next != null && table.At(bucket - 1, i + 1, current.next)
        else current.next == null && Seen() == Flat(table.chains[..bucket])
    {
      var chain := table.chains[bucket - 1];
      assert table.BucketOk(bucket - 1);
      FlatStep(table.chains, bucket - 1);
      if i + 1 == |chain| {
        assert chain[..i + 1] == chain;
      }
    }
  }

  lemma {:induction false} FlatKeys<K, V>(table: Table<K, V>, b: nat)
    requires table.Valid() && b <= table.capacity
    ensures var s := Flat(table.chains[..b]); KeysDiffer(s) && forall e <- s :: e in table.chains[table.Index(e.key)] && table.Index(e.key) < b
  {
    if b > 0 {
      hide Flat, table.Index;
      FlatKeys(table, b - 1);
      FlatStep(table.chains, b - 1);
      assert table.BucketOk(b - 1);
      var s, t := Flat(table.chains[..b - 1]), table.chains[b - 1];
      forall i, j | 0 <= i < |s| && 0 <= j < |t|
        ensures s[i].key != t[j].key
      {
        assert s[i] in s && t[j] in t;
      }
    } else {
      assert table.chains[..b] == [];
    }
  }

  ghost function KeySet<K, V>(s: seq<Entry<K, V>>): set<K> {
    set e | e in s :: e.key
  }

  lemma {:induction false} DistinctCount<K, V>(s: seq<Entry<K, V>>)
    requires KeysDiffer(s)
    ensures |KeySet(s)| == |s|
  {
    if s != [] {
      var n := |s| - 1;
      var front, last := s[..n], s[n];
      DistinctCount(front);
      assert s == front + [last];
      assert forall e <- front :: e.key != last.key;
      assert last.key !in KeySet(front);
      assert KeySet(s) == KeySet(front) + {last.key};
    }
  }

  lemma {:induction false} FlatPrefix<K, V>(chains: seq<seq<Entry<K, V>>>, b: nat)
    requires b <= |chains|
    ensures Flat(chains[..b]) <= Flat(chains)
    decreases |chains| - b
  {
    if b == |chains| {
      assert chains[..b] == chains;
    } else {
      FlatStep(chains, b);
      FlatPrefix(chains, b + 1);
    }
  }

  /** The entries, in order, are the map's items, once each. */
  lemma FlatIsContents<K(!new), V(!new)>(table: Table<K, V>, items: seq<(K, V)>)
    requires table.Valid()
    requires var all := Flat(table.chains); |items| == |all| && forall i :: 0 <= i < |all| ==> items[i] == (all[i].key, all[i].value)
    ensures forall k, v :: (k, v) in items <==> k in table.contents && table.contents[k] == v
    ensures forall i, j :: 0 <= i < j < |items| ==> items[i].0 != items[j].0
    ensures |items| == |table.contents|
  {
    hide Flat, table.Index;
    var all := Flat(table.chains);
    assert table.chains[..table.capacity] == table.chains;
    FlatKeys(table, table.capacity);
    forall e <- all
      ensures e.key in table.contents && table.contents[e.key] == e.value
    {
      assert table.BucketOk(table.Index(e.key));
    }
    forall k <- table.contents
      ensures exists e <- all :: e.key == k && e.value == table.contents[k]
    {
      assert table.BucketOk(table.Index(k));
      var chain := table.chains[table.Index(k)];
      var e :| e in chain && e.key == k;
      FlatHas(table.chains, e);
    }
    forall k, v
      ensures (k, v) in items <==> k in table.contents && table.contents[k] == v
    {
      if k in table.contents && table.contents[k] == v {
        var e :| e in all && e.key == k && e.value == v;
        var i :| 0 <= i < |all| && all[i] == e;
        assert items[i] == (k, v);
      }
      if (k, v) in items {
        var i :| 0 <= i < |items| && items[i] == (k, v);
        assert all[i] in all;
      }
    }
    DistinctCount(all);
    assert KeySet(all) == table.contents.Keys;
  }

  /** A full iteration over an unchanged table yields each item of the map exactly once and then stops. */
  method Collect<K(==, !new), V(==, !new)>(table: Table<K, V>) returns (items: seq<(K, V)>)
    requires table.Valid()
    ensures forall k, v :: (k, v) in items <==> k in table.contents && table.contents[k] == v
    ensures forall i, j :: 0 <= i < j < |items| ==> items[i].0 != items[j].0
    ensures |items| == |table.contents|
  {
    hide Flat, table.Valid;
    var iter := new Cursor(table);
    items := [];
    ghost var all := Flat(table.chains);
    while true
      invariant iter.Valid() && iter.table == table && fresh(iter)
      invariant |items| == |iter.Seen()| && iter.Seen() <= all
      invariant allocated(all)
      invariant forall i :: 0 <= i < |items| ==> items[i] == (all[i].key, all[i].value)
      decreases |all| - |items|
    {
      var r := iter.Next();
      if r.None? {
        break;
      }
      iter.SeenIsPrefix();
      assert iter.current == iter.Seen()[|items|] == all[|items|];
      items := items + [r.value];
    }
    FlatIsContents(table, items);
  }
}
