/**
 assoc_array.c: entries indexed by a hash table and threaded on a list that records insertion
 order. The array's abstract value is `order`, the list from its oldest to its newest item.
 */
module AssocArrays {
  import opened Words
  import opened Seqs
  import opened KList
  import opened HList
  import opened HashTables
  import opened ArraySpec
  import Hash
  import OrderedMaps

  // The address of the caller's data.
  type Data = nat

  /** `assoc_array_entry_t`, filled by the default `fill_entry`: the key bytes are a private copy. */
  class Entry {
    const hnode: HlistNode
    const lnode: KListHead
    const key: Key
    const data: Data

    constructor (key: Key, data: Data)
      ensures this.key == key && this.data == data
      ensures fresh(hnode) && fresh(lnode)
      ensures hnode.container == this && lnode.container == this
    {
      this.key, this.data := key, data;
      hnode := new HlistNode();
      lnode := new KListHead();
      new;
      hnode.container := this;
      lnode.container := this;
    }
  }

  ghost function HNodes(chain: seq<Item<Entry>>): seq<HlistNode> {
    seq(|chain|, i requires 0 <= i < |chain| => chain[i].val.hnode)
  }

  ghost function LNodes(order: seq<Item<Entry>>): seq<KListHead> {
    seq(|order|, i requires 0 <= i < |order| => order[i].val.lnode)
  }

  /** `k_container_of` leads from both embedded nodes of an entry back to the entry. */
  ghost predicate Contained(order: seq<Item<Entry>>)
    reads (set x | x in order :: x.val.hnode)`container, (set x | x in order :: x.val.lnode)`container
  {
    forall x :: x in order ==> x.val.hnode.container == x.val && x.val.lnode.container == x.val
  }

  /** Each bucket is the chain that the order list determines. */
  ghost predicate IndexAgrees(chains: seq<seq<HlistNode>>, order: seq<Item<Entry>>, bits: nat) {
    forall b :: 0 <= b < |chains| ==> chains[b] == HNodes(ChainOf(order, bits, b))
  }

  lemma IndexAfterAdd(chains: seq<seq<HlistNode>>, order: seq<Item<Entry>>, x: Item<Entry>, bits: nat, b: nat)
    requires IndexAgrees(chains, order, bits) && b == BucketOf(x.key, bits) && b < |chains|
    ensures IndexAgrees(chains[b := [x.val.hnode] + chains[b]], order + [x], bits)
  {
    assert (order + [x])[..|order|] == order;
    var chain := ChainOf(order, bits, b);
    assert HNodes([x] + chain) == [x.val.hnode] + HNodes(chain);
  }

  /** Where an item stands in its chain: behind the newer ones. */
  ghost function PlaceInChain(order: seq<Item<Entry>>, i: nat, bits: nat): nat
    requires i < |order|
  {
    |ChainOf(order[i + 1..], bits, BucketOf(order[i].key, bits))|
  }

  lemma IndexAfterRemoval(chains: seq<seq<HlistNode>>, order: seq<Item<Entry>>, i: nat, bits: nat)
    requires IndexAgrees(chains, order, bits) && i < |order| && BucketOf(order[i].key, bits) < |chains|
    ensures var b, k := BucketOf(order[i].key, bits), PlaceInChain(order, i, bits);
            && k < |chains[b]| && chains[b][k] == order[i].val.hnode
            && IndexAgrees(chains[b := RemoveAt(chains[b], k)], RemoveAt(order, i), bits)
  {
    var b, k := BucketOf(order[i].key, bits), PlaceInChain(order, i, bits);
    ChainAfterRemoval(order, i, bits, b);
    var chains', chain := chains[b := RemoveAt(chains[b], k)], ChainOf(order, bits, b);
    forall c | 0 <= c < |chains'|
      ensures chains'[c] == HNodes(ChainOf(RemoveAt(order, i), bits, c))
    {
      ChainAfterRemoval(order, i, bits, c);
      if c == b {
        assert HNodes(RemoveAt(chain, k)) == RemoveAt(HNodes(chain), k);
      }
    }
  }

  lemma ContainedExtended(order: seq<Item<Entry>>, x: Item<Entry>)
    requires Contained(order) && x.val.hnode.container == x.val && x.val.lnode.container == x.val
    ensures Contained(order + [x])
  {
  }

  lemma ContainedShrunk(order: seq<Item<Entry>>, i: nat)
    requires Contained(order) && i < |order|
    ensures Contained(RemoveAt(order, i))
  {
    var rest := RemoveAt(order, i);
    forall x | x in rest
      ensures x in order
    {
      var j :| 0 <= j < |rest| && rest[j] == x;
      assert x == order[if j < i then j else j + 1];
    }
  }

  ghost function EntriesOf(items: seq<Item<Entry>>): seq<Entry> {
    seq(|items|, i requires 0 <= i < |items| => items[i].val)
  }

  lemma WalkStart(chain: seq<Item<Entry>>)
    ensures HNodes(chain[0..]) == HNodes(chain) && EntriesOf(chain[..0]) == []
    ensures |HNodes(chain)| == |chain|
  {
    assert chain[0..] == chain;
  }

  lemma WalkOn(chain: seq<Item<Entry>>, j: nat)
    requires j < |chain|
    ensures var rest := HNodes(chain[j..]);
            && rest != [] && rest[0] == chain[j].val.hnode && rest[1..] == HNodes(chain[j + 1..])
            && |rest[1..]| == |chain| - j - 1
    ensures EntriesOf(chain[..j + 1]) == EntriesOf(chain[..j]) + [chain[j].val]
  {
  }

  lemma EntriesConcat(a: seq<Item<Entry>>, b: seq<Item<Entry>>)
    ensures EntriesOf(a + b) == EntriesOf(a) + EntriesOf(b) && EntriesOf([]) == []
  {
  }

  lemma EntriesAround(order: seq<Item<Entry>>, i: nat)
    requires i < |order|
    ensures multiset(EntriesOf(order)) == multiset(EntriesOf(RemoveAt(order, i))) + multiset{order[i].val}
  {
    var v, front, back := EntriesOf(order), order[..i], order[i + 1..];
    EntriesConcat(front, back);
    assert v == EntriesOf(front) + [order[i].val] + EntriesOf(back);
  }

  lemma {:induction false} EntriesOfPermutation(a: seq<Item<Entry>>, b: seq<Item<Entry>>)
    requires multiset(a) == multiset(b)
    ensures multiset(EntriesOf(a)) == multiset(EntriesOf(b))
    decreases |a|
  {
    hide EntriesOf;
    if a == [] {
      assert |b| == |multiset(b)| == 0;
    } else {
      var x := a[0];
      assert x in multiset(b);
      var i :| 0 <= i < |b| && b[i] == x;
      RemoveAtMultiset(a, 0);
      RemoveAtMultiset(b, i);
      EntriesOfPermutation(RemoveAt(a, 0), RemoveAt(b, i));
      EntriesAround(a, 0);
      EntriesAround(b, i);
    }
  }

  /** Entries freed in this order: ascending buckets, and each bucket from its newest entry. */
  ghost predicate FreedInOrder(gone: seq<Entry>, order: seq<Item<Entry>>, bits: nat) {
    forall i, j, p, q ::
      0 <= i < j < |gone| && 0 <= p < |order| && 0 <= q < |order|
      && gone[i] == order[p].val && gone[j] == order[q].val
      ==> TornDownFirst(order, bits, p, q)
  }

  /** What the bucket walk means for the caller of `array_free`. */
  lemma WalkObserved(order: seq<Item<Entry>>, bits: nat)
    requires forall p, q :: 0 <= p < q < |order| ==> order[p].val != order[q].val
    ensures var gone := EntriesOf(BucketWalk(order, bits, Pow2(bits)));
            multiset(gone) == multiset(EntriesOf(order)) && FreedInOrder(gone, order, bits)
  {
    hide BucketWalk, TornDownFirst, Pow2;
    var walk := BucketWalk(order, bits, Pow2(bits));
    var gone := EntriesOf(walk);
    WalkIsPermutation(order, bits);
    EntriesOfPermutation(walk, order);
    assert Distinct(order);
    WalkTornDown(order, bits, Pow2(bits));
    forall i, j, p, q | 0 <= i < j < |gone| && 0 <= p < |order| && 0 <= q < |order|
                        && gone[i] == order[p].val && gone[j] == order[q].val
      ensures TornDownFirst(order, bits, p, q)
    {
      ItemOfEntry(order, bits, walk[i], p);
      ItemOfEntry(order, bits, walk[j], q);
    }
  }

  lemma ItemOfEntry(order: seq<Item<Entry>>, bits: nat, x: Item<Entry>, p: nat)
    requires forall p, q :: 0 <= p < q < |order| ==> order[p].val != order[q].val
    requires x in BucketWalk(order, bits, Pow2(bits)) && p < |order| && x.val == order[p].val
    ensures x == order[p]
  {
    WalkBuckets(order, bits, Pow2(bits), x);
    var k :| 0 <= k < |order| && order[k] == x;
  }

  lemma WalkEnd(chain: seq<Item<Entry>>)
    ensures HNodes(chain[|chain|..]) == [] && EntriesOf(chain[..|chain|]) == EntriesOf(chain)
  {
    assert chain[..|chain|] == chain;
  }

  /** `hlist_entry_safe`: the entry around a node, NULL for none. */
  function EntrySafe(pos: HlistNode?): (entry: Entry?)
    requires pos == null || pos.container is Entry
    reads pos
    ensures entry == null <==> pos == null
  {
    if pos == null then null else pos.container as Entry
  }

  /**
   `memcmp(stored, query, |query|) == 0`: byte by byte, up to the first difference. Stopping there is a
   choice of this model. The C library may compare all `|query|` bytes in any order, and then only
   `|stored| >= |query|` keeps every read inside the stored key.
  */
  method Memcmp(stored: Key, query: Key) returns (equal: bool)
    requires !(stored < query)
    ensures equal <==> query <= stored
  {
    var i := 0;
    while i < |query|
      invariant 0 <= i <= |query| && query[..i] <= stored
    {
      assert query[..i + 1] == query[..i] + [query[i]];
      if stored[i] != query[i] {
        return false;
      }
      i := i + 1;
    }
    assert query[..i] == query;
    return true;
  }

  class AssocArray {
    const ht: HashTable
    const list: KListHead
    var size: nat
    ghost var order: seq<Item<Entry>>
    // The entries handed to `free_entry`, in call order.
    ghost var freed: seq<Entry>
    ghost var Repr: set<object>

    /** Which objects belong to the array, and which of them to its hash table. */
    ghost predicate Owned(order: seq<Item<Entry>>, repr: set<object>, tableRepr: set<object>) {
      && this in repr && ht in repr && list in repr
      && tableRepr <= repr && this !in tableRepr && list !in tableRepr
      && (forall x :: x in order ==>
            && x.key == x.val.key
            && x.val in repr && x.val.lnode in repr && x.val.hnode in tableRepr
            && x.val !in tableRepr && x.val.lnode !in tableRepr)
      && (forall i, j :: 0 <= i < j < |order| ==>
            order[i].val.hnode != order[j].val.hnode && order[i].val.lnode != order[j].val.lnode)
    }

    lemma OwnedExtended(order: seq<Item<Entry>>, repr: set<object>, tableRepr: set<object>, entry: Entry)
      requires Owned(order, repr, tableRepr)
      requires entry !in repr && entry.hnode !in repr && entry.lnode !in repr
      ensures Owned(order + [Item(entry.key, entry)],
                    repr + {entry, entry.hnode, entry.lnode}, tableRepr + {entry.hnode})
      ensures entry.lnode != list && entry.lnode !in LNodes(order)
      ensures Nodes(list, LNodes(order)) <= repr && tableRepr <= repr
    {
      assert forall i :: 0 <= i < |order| ==> order[i] in order;
    }

    lemma OwnedShrunk(order: seq<Item<Entry>>, repr: set<object>, tableRepr: set<object>, i: nat)
      requires Owned(order, repr, tableRepr) && i < |order|
      ensures Owned(RemoveAt(order, i), repr - {order[i].val.hnode}, tableRepr - {order[i].val.hnode})
      ensures forall x :: x in RemoveAt(order, i) ==>
                x.val.hnode != order[i].val.hnode && x.val.lnode != order[i].val.lnode
    {
      var x, rest := order[i], RemoveAt(order, i);
      forall y | y in rest
        ensures y in order && y.val.hnode != x.val.hnode && y.val.lnode != x.val.lnode
      {
        var j :| 0 <= j < |rest| && rest[j] == y;
        assert y == order[if j < i then j else j + 1];
      }
    }

    ghost predicate Valid()
      reads this, Repr
    {
      && this in Repr && ht in Repr
      && Owned(order, Repr, ht.Repr)
      && Contained(order)
      && ht.Valid()
      && IndexAgrees(ht.chains, order, ht.bits)
      && Ring(list, LNodes(order))
      && size == |order|
    }

    /** In every reachable state each bucket is the reverse of the order list filtered to that bucket. */
    lemma IndexFollowsOrder(b: nat)
      requires Valid() && b < |ht.chains|
      ensures ht.chains[b] == HNodes(Reverse(Filtered(order, ht.bits, b)))
    {
      ChainIsReversedFilter(order, ht.bits, b);
    }

    /** Every entry is in the chain of its key's bucket and in no other chain. */
    lemma EntryInOneBucket(i: nat, b: nat)
      requires Valid() && i < |order| && b < |ht.chains|
      ensures order[i].val.hnode in ht.chains[b] <==> b == BucketOf(order[i].key, ht.bits)
    {
      var x, chain := order[i], ChainOf(order, ht.bits, b);
      ChainMembers(order, ht.bits, b, x);
      if x in chain {
        var j :| 0 <= j < |chain| && chain[j] == x;
        assert HNodes(chain)[j] == x.val.hnode;
      }
      if x.val.hnode in HNodes(chain) {
        var j :| 0 <= j < |chain| && chain[j].val.hnode == x.val.hnode;
        ChainMembers(order, ht.bits, b, chain[j]);
        var k :| 0 <= k < |order| && order[k] == chain[j];
      }
    }

    /** `array_create` once its allocations have succeeded. */
    constructor (bits: nat)
      requires bits <= MAX_BITS
      ensures Valid() && fresh(Repr)
      ensures order == [] && freed == [] && ht.bits == bits
    {
      ht := new HashTable(bits);
      list := new KListHead();
      size := 0;
      order, freed := [], [];
      new;
      InitListHead(list);
      Repr := {this, ht, list} + ht.Repr;
    }

    /** What a walk of bucket `b` finds at position `j`. */
    lemma WalkAt(b: nat, j: nat)
      requires Valid() && b < Pow2(ht.bits)
      ensures |ht.table| == |ht.chains| == Pow2(ht.bits) && ht.table[b].first == NodeAt(ht.chains[b], 0)
      ensures var chain := ChainOf(order, ht.bits, b);
              if j < |chain| then
                var e := chain[j].val;
                && NodeAt(ht.chains[b], j) == e.hnode && e.hnode.container == e && e.key == chain[j].key
                && e.hnode.next == NodeAt(ht.chains[b], j + 1)
              else NodeAt(ht.chains[b], j) == null
    {
      hide Ring, ChainOf;
      var chain := ChainOf(order, ht.bits, b);
      ht.ReprContents();
      ht.TableSize();
      if j < |chain| {
        ChainMembers(order, ht.bits, b, chain[j]);
      }
    }

    /** `array_get_by_key`: scan the query's bucket from its head. */
    method GetByKey(key: Key) returns (found: Entry?)
      requires Valid()
      requires LookupDecided(order, ht.bits, key)
      ensures var i := NewestMatch(order, ht.bits, key);
              if i < 0 then found == null else found == order[i].val
    {
      hide HashTable.Valid, IndexAgrees, Owned, Contained, Ring, ChainOf, FirstMatch, NewestMatch;
      ht.TableSize();
      var hash := Hash.HashStr(key, |key|, 32);
      SameBucketOnBothPaths(key, ht.bits);
      var bkt := CalcBkt(hash, Pow2(ht.bits));
      ghost var chain := ChainOf(order, ht.bits, bkt);
      ghost var j := 0;
      FirstMatchIsNewest(order, ht.bits, key);
      WalkAt(bkt, 0);
      var pos := ht.table[bkt].first;
      while pos != null
        invariant 0 <= j <= FirstMatch(chain, key)
        invariant pos == NodeAt(ht.chains[bkt], j)
        decreases |chain| - j
      {
        WalkAt(bkt, j);
        var cur := pos.container as Entry;
        var tmp := pos.next;
        var equal := Memcmp(cur.key, key);
        if equal {
          return cur;
        }
        pos := tmp;
        j := j + 1;
      }
      WalkAt(bkt, j);
      return null;
    }

    /**
     `array_add`. The environment decides whether the two allocations succeed; if either fails
     nothing changes.
    */
    method Add(data: Data, key: Key, entryAllocated: bool, keyAllocated: bool) returns (ret: int)
      requires Valid()
      modifies Repr
      ensures Valid() && fresh(Repr - old(Repr)) && freed == old(freed)
      ensures ret == if entryAllocated && keyAllocated then 0 else -1
      ensures ret != 0 ==> ht.chains == old(ht.chains)
                           && order == Step(old(order), ht.bits, AddFailed(key, entryAllocated))
      ensures ret == 0 ==> order != [] && fresh(order[|order| - 1].val) && order[|order| - 1].val.data == data
      ensures ret == 0 ==> order == Step(old(order), ht.bits, ArraySpec.Op.Add(key, order[|order| - 1].val))
    {
      if !entryAllocated {
        return -1;
      }
      var entry := new Entry(key, data);
      if !keyAllocated {
        return -1;
      }
      Link(entry);
      return 0;
    }

    /** The linking part of `array_add`: front of the bucket, tail of the list. */
    method Link(entry: Entry)
      requires Valid() && entry !in Repr && entry.hnode !in Repr && entry.lnode !in Repr
      requires entry.hnode.container == entry && entry.lnode.container == entry
      modifies this, Repr, entry.hnode, entry.lnode
      ensures Valid() && freed == old(freed)
      ensures Repr == old(Repr) + {entry, entry.hnode, entry.lnode}
      ensures order == old(order) + [Item(entry.key, entry)]
    {
      hide Ring, HashTable.Valid, HashTable.Nodes, IndexAgrees, Contained, Owned, LNodes, Nodes;
      ht.ReprContents();
      OwnedExtended(order, Repr, ht.Repr, entry);
      ContainedExtended(order, Item(entry.key, entry));
      LinkHash(entry);
      LinkList(entry);
      Count(entry);
    }

    /** `arr->size++`, with which the new state is complete. */
    method Count(entry: Entry)
      requires this !in ht.Repr && this in Repr && ht in Repr && size == |order|
      requires Owned(order + [Item(entry.key, entry)], Repr + {entry, entry.hnode, entry.lnode}, ht.Repr)
      requires Contained(order + [Item(entry.key, entry)])
      requires ht.Valid() && IndexAgrees(ht.chains, order + [Item(entry.key, entry)], ht.bits)
      requires Ring(list, LNodes(order + [Item(entry.key, entry)]))
      modifies this`size, this`Repr, this`order
      ensures Valid() && Repr == old(Repr) + {entry, entry.hnode, entry.lnode}
      ensures order == old(order) + [Item(entry.key, entry)]
    {
      hide Ring, HashTable.Valid, IndexAgrees, Contained, Owned, LNodes;
      size := size + 1;
      Repr := Repr + {entry, entry.hnode, entry.lnode};
      order := order + [Item(entry.key, entry)];
    }

    method LinkList(entry: Entry)
      requires Ring(list, LNodes(order)) && entry.lnode != list && entry.lnode !in LNodes(order)
      requires ht.Valid()
      modifies Nodes(list, LNodes(order))`next, Nodes(list, LNodes(order))`prev, entry.lnode`next, entry.lnode`prev
      ensures Ring(list, LNodes(order + [Item(entry.key, entry)]))
      ensures ht.Valid()
    {
      KListAddTail(entry.lnode, list, LNodes(order));
      assert LNodes(order + [Item(entry.key, entry)]) == LNodes(order) + [entry.lnode];
    }

    /** `hashtable_add` of the new entry, seen from the order list it is about to join. */
    method LinkHash(entry: Entry)
      requires ht.Valid() && IndexAgrees(ht.chains, order, ht.bits) && entry.hnode !in ht.Repr
      requires Ring(list, LNodes(order))
      modifies ht`chains, ht`Repr, (set h | h in ht.table)`first, ht.Nodes()`pprev, entry.hnode`next, entry.hnode`pprev
      ensures ht.Valid() && IndexAgrees(ht.chains, order + [Item(entry.key, entry)], ht.bits)
      ensures ht.Repr == old(ht.Repr) + {entry.hnode}
      ensures Ring(list, LNodes(order))
    {
      var hash := Hash.HashStr(entry.key, |entry.key|, 32);
      var hashKey := ToInt32(hash);
      SameBucketOnBothPaths(entry.key, ht.bits);
      IndexAfterAdd(ht.chains, order, Item(entry.key, entry), ht.bits, BucketOf(entry.key, ht.bits));
      ht.Add(entry.hnode, hashKey);
    }

    /** The shared tail of the delete operations: unlink from the bucket and the list, free, count. */
    method Remove(entry: Entry, ghost i: nat)
      requires Valid() && i < |order| && order[i].val == entry
      modifies Repr
      ensures Valid() && Repr <= old(Repr)
      ensures order == RemoveAt(old(order), i) && freed == old(freed) + [entry]
    {
      hide Ring, HashTable.Valid, HashTable.Nodes, IndexAgrees, Contained;
      ht.ReprContents();
      OwnedShrunk(order, Repr, ht.Repr, i);
      UnlinkHash(entry, i);
      UnlinkList(entry, i);
      ContainedShrunk(order, i);
      FreeRemoved(entry, RemoveAt(order, i));
      Uncount(entry, i);
    }

    /** `arr->size--`, with which the new state is complete. */
    method Uncount(entry: Entry, ghost i: nat)
      requires i < |order| && size == |order| && this !in ht.Repr
      requires this in Repr && ht in Repr
      requires Owned(RemoveAt(order, i), Repr - {entry.hnode}, ht.Repr) && Contained(RemoveAt(order, i))
      requires ht.Valid() && IndexAgrees(ht.chains, RemoveAt(order, i), ht.bits)
      requires Ring(list, LNodes(RemoveAt(order, i)))
      modifies this`size, this`Repr, this`order
      ensures Valid() && Repr == old(Repr) - {entry.hnode} && order == RemoveAt(old(order), i)
    {
      hide Ring, HashTable.Valid, IndexAgrees, Contained, Owned, LNodes;
      size := size - 1;
      Repr := Repr - {entry.hnode};
      order := RemoveAt(order, i);
    }

    /** `hlist_del` of the entry's hash node. */
    method UnlinkHash(entry: Entry, ghost i: nat)
      requires ht.Valid() && IndexAgrees(ht.chains, order, ht.bits)
      requires i < |order| && order[i] == Item(entry.key, entry) && Ring(list, LNodes(order))
      modifies ht`chains, ht`Repr, (set h | h in ht.table)`first, ht.Nodes()`next, ht.Nodes()`pprev
      ensures ht.Valid() && IndexAgrees(ht.chains, RemoveAt(order, i), ht.bits)
      ensures ht.Repr == old(ht.Repr) - {entry.hnode} && Ring(list, LNodes(order))
    {
      ghost var b := BucketOf(entry.key, ht.bits);
      ghost var k := PlaceInChain(order, i, ht.bits);
      IndexAfterRemoval(ht.chains, order, i, ht.bits);
      ht.Del(entry.hnode, b, k);
    }

    /** `k_list_del` of the entry's list node. */
    method UnlinkList(entry: Entry, ghost i: nat)
      requires Ring(list, LNodes(order)) && i < |order| && order[i].val == entry
      requires ht.Valid()
      modifies Nodes(list, LNodes(order))`next, Nodes(list, LNodes(order))`prev
      ensures Ring(list, LNodes(RemoveAt(order, i)))
      ensures entry.lnode != list && entry.lnode !in LNodes(RemoveAt(order, i))
      ensures ht.Valid()
    {
      ghost var s := LNodes(order);
      assert s[i] == entry.lnode;
      assert Before(list, s, i) in Nodes(list, s) && After(list, s, i + 1) in Nodes(list, s);
      KListDel(entry.lnode, list, s, i);
      assert LNodes(RemoveAt(order, i)) == RemoveAt(LNodes(order), i);
    }

    /**
     The `free_entry` callback. What it leaves in the entry's nodes is unspecified, so nothing
     proved about the array can depend on a link of a freed entry.
    */
    method FreeEntry(entry: Entry)
      modifies this`freed, entry.hnode, entry.lnode
      ensures freed == old(freed) + [entry]
    {
      entry.hnode.next, entry.hnode.pprev, entry.hnode.container := null, Poison, null;
      entry.lnode.next, entry.lnode.prev, entry.lnode.container := null, null, null;
      freed := freed + [entry];
    }

    /** Freeing an unlinked entry does not touch the structures that hold the rest. */
    method FreeRemoved(entry: Entry, ghost rest: seq<Item<Entry>>)
      requires ht.Valid() && Ring(list, LNodes(rest)) && Contained(rest)
      requires entry.hnode !in ht.Repr && entry.lnode != list && entry.lnode !in LNodes(rest)
      requires forall x :: x in rest ==> x.val.hnode != entry.hnode && x.val.lnode != entry.lnode
      modifies this`freed, entry.hnode, entry.lnode
      ensures freed == old(freed) + [entry]
      ensures ht.Valid() && Ring(list, LNodes(rest)) && Contained(rest)
    {
      FreeEntry(entry);
    }

    /** `array_del`: delete the entry that the lookup finds; 1 when it finds none. */
    method Del(key: Key) returns (ret: int)
      requires Valid()
      requires LookupDecided(order, ht.bits, key)
      modifies Repr
      ensures Valid() && Repr <= old(Repr)
      ensures var i := NewestMatch(old(order), ht.bits, key);
              && ret == (if i < 0 then 1 else 0)
              && freed == old(freed) + (if i < 0 then [] else [old(order)[i].val])
      ensures order == Step(old(order), ht.bits, ArraySpec.Op.Del(key))
    {
      var existing := GetByKey(key);
      if existing == null {
        return 1;
      }
      Remove(existing, NewestMatch(order, ht.bits, key));
      return 0;
    }

    /** `array_add_replace`: the old entry goes first, even when the new one cannot be added. */
    method AddReplace(data: Data, key: Key, entryAllocated: bool, keyAllocated: bool) returns (ret: int)
      requires Valid()
      requires LookupDecided(order, ht.bits, key)
      modifies Repr
      ensures Valid() && fresh(Repr - old(Repr))
      ensures ret == if entryAllocated && keyAllocated then 0 else -1
      ensures var i := NewestMatch(old(order), ht.bits, key);
              freed == old(freed) + (if i < 0 then [] else [old(order)[i].val])
      ensures ret != 0 ==> order == Step(old(order), ht.bits, ReplaceFailed(key, entryAllocated))
      ensures ret == 0 ==> order != [] && fresh(order[|order| - 1].val) && order[|order| - 1].val.data == data
      ensures ret == 0 ==> order == Step(old(order), ht.bits, Replace(key, order[|order| - 1].val))
    {
      hide Valid, NewestMatch, LookupDecided;
      var _ := Del(key);
      ret := Add(data, key, entryAllocated, keyAllocated);
    }

    /** `_array_get_first`: the oldest or the newest entry, NULL when there is none. */
    method GetEnd(isFirst: bool) returns (entry: Entry?)
      requires Valid()
      ensures if order == [] then entry == null
              else entry == order[if isFirst then 0 else |order| - 1].val
    {
      RingTests(list, LNodes(order));
      if KListEmpty(list) || size == 0 {
        return null;
      }
      assert order[0] in order && order[|order| - 1] in order;
      if isFirst {
        return list.next.container as Entry;
      } else {
        return list.prev.container as Entry;
      }
    }

    /** `_array_del_first`: delete the oldest or the newest entry. */
    method DelEnd(isFirst: bool) returns (ret: int)
      requires Valid()
      modifies Repr
      ensures Valid() && Repr <= old(Repr)
      ensures ret == if old(order) == [] then -1 else 0
      ensures old(order) == [] ==> freed == old(freed)
      ensures old(order) != [] ==> freed == old(freed) + [old(order)[if isFirst then 0 else |old(order)| - 1].val]
      ensures order == Step(old(order), ht.bits, if isFirst then DelFirst else DelLast)
    {
      var e := GetEnd(isFirst);
      if e == null {
        return -1;
      }
      Remove(e, if isFirst then 0 else |order| - 1);
      return 0;
    }

    /** `array_collision_percent`: count every chain with the plain iteration macro. */
    method CollisionPercentage() returns (percent: int)
      requires Valid()
      ensures percent == if order == [] then 0 else CollisionPercent(order, ht.bits)
    {
      if size == 0 {
        return 0;
      }
      var numBuckets := Pow2(ht.bits);
      var collisions := 0;
      for i := 0 to numBuckets
        invariant collisions == Collisions(order, ht.bits, i)
      {
        ghost var chain := ht.chains[i];
        var count := 0;
        var cur := ht.table[i].first;
        while cur != null
          invariant 0 <= count <= |chain| && cur == NodeAt(chain, count)
          decreases |chain| - count
        {
          count := count + 1;
          cur := cur.next;
        }
        if count > 1 {
          collisions := collisions + (count - 1);
        }
      }
      return collisions * 100 / size;
    }

    /** What teardown may still rely on: a table node that is still linked leads to its entry. */
    ghost predicate LinkedContained(order: seq<Item<Entry>>)
      reads ht, (set x | x in order :: x.val.hnode)`container
    {
      forall x :: x in order && x.val.hnode in ht.Repr ==> x.val.hnode.container == x.val
    }

    lemma StillLinked()
      requires Contained(order)
      ensures LinkedContained(order)
    {
    }

    lemma EntriesDistinct()
      requires Valid()
      ensures forall p, q :: 0 <= p < q < |order| ==> order[p].val != order[q].val
    {
      hide HashTable.Valid, Ring, IndexAgrees, Contained;
    }

    /**
     `array_free` up to releasing the table: every entry is freed once, bucket by bucket in ascending
     order and each bucket from its newest entry, and every bucket ends empty.
    */
    method Free() returns (ret: int)
      requires Valid()
      modifies Repr
      ensures ret == 0
      ensures ht.Valid() && forall b :: 0 <= b < |ht.chains| ==> ht.chains[b] == []
      ensures freed == old(freed) + EntriesOf(BucketWalk(old(order), ht.bits, Pow2(ht.bits)))
      ensures var gone := freed[|old(freed)|..];
              multiset(gone) == multiset(EntriesOf(old(order))) && FreedInOrder(gone, old(order), ht.bits)
    {
      hide Valid, HashTable.Valid, EntriesOf, BucketWalk, FreedInOrder;
      EntriesDistinct();
      WalkObserved(order, ht.bits);
      FreeBuckets();
      return 0;
    }

    /** `HT_FREE`: walk every bucket with the safe iteration macro, unhash and free each entry. */
    method FreeBuckets()
      requires Valid()
      modifies Repr
      ensures ht.Valid() && forall b :: 0 <= b < |ht.chains| ==> ht.chains[b] == []
      ensures freed == old(freed) + EntriesOf(BucketWalk(old(order), ht.bits, Pow2(ht.bits)))
    {
      hide HashTable.Valid, LinkedContained, ChainOf, HNodes, EntriesOf, Ring, Contained;
      StillLinked();
      ht.ReprContents();
      ht.TableSize();
      EntriesConcat([], []);
      var bkt := 0;
      var obj: Entry? := null;
      while obj == null && bkt < Pow2(ht.bits)
        invariant obj == null && 0 <= bkt <= Pow2(ht.bits)
        invariant order == old(order) && Repr == old(Repr) && ht.Repr <= old(ht.Repr)
        invariant Owned(order, Repr, old(ht.Repr))
        invariant ht.Valid() && LinkedContained(order) && |ht.chains| == Pow2(ht.bits)
        invariant forall b :: 0 <= b < bkt ==> ht.chains[b] == []
        invariant forall b :: bkt <= b < |ht.chains| ==> ht.chains[b] == HNodes(ChainOf(order, ht.bits, b))
        invariant freed == old(freed) + EntriesOf(BucketWalk(order, ht.bits, bkt))
      {
        EntriesConcat(BucketWalk(order, ht.bits, bkt), ChainOf(order, ht.bits, bkt));
        obj := FreeBucket(bkt);
        ht.TableSize();
        bkt := bkt + 1;
      }
    }

    /** One turn of the outer loop: the safe walk over bucket `bkt`. */
    method FreeBucket(bkt: nat) returns (obj: Entry?)
      requires bkt < |ht.chains| && ht.chains[bkt] == HNodes(ChainOf(order, ht.bits, bkt))
      requires ht.Valid() && LinkedContained(order)
      requires ht.Repr <= Repr && forall x :: x in order ==> x.val.lnode in Repr && x.val.lnode !in ht.Repr
      modifies this`freed, ht, Repr
      ensures order == old(order) && Repr == old(Repr)
      ensures ht.Valid() && LinkedContained(order) && ht.Repr <= old(ht.Repr)
      ensures ht.chains == old(ht.chains)[bkt := []]
      ensures freed == old(freed) + EntriesOf(ChainOf(order, ht.bits, bkt))
      ensures obj == null
    {
      hide HashTable.Valid, LinkedContained, ChainOf, HNodes, EntriesOf;
      ghost var chain := ChainOf(order, ht.bits, bkt);
      ghost var j := 0;
      ht.ReprContents();
      WalkStart(chain);
      var pos := ht.table[bkt].first;
      while pos != null
        invariant 0 <= j <= |chain| && |HNodes(chain[j..])| == |chain| - j
        invariant ht.Nodes() <= ht.Repr && forall h :: h in ht.table ==> h in ht.Repr
        invariant order == old(order) && Repr == old(Repr) && ht.Repr <= old(ht.Repr)
        invariant ht.Valid() && LinkedContained(order)
        invariant ht.chains == old(ht.chains)[bkt := HNodes(chain[j..])]
        invariant pos == NodeAt(ht.chains[bkt], 0)
        invariant freed == old(freed) + EntriesOf(chain[..j])
        decreases |chain| - j
      {
        ChainMembers(order, ht.bits, bkt, chain[j]);
        WalkOn(chain, j);
        pos := FreeFirst(pos, bkt, chain[j]);
        j := j + 1;
        ht.ReprContents();
      }
      WalkEnd(chain);
      return EntrySafe(pos);
    }

    /** One turn of the inner loop: the next link is read first, then the entry is unhashed and freed. */
    method FreeFirst(pos: HlistNode, ghost bkt: nat, ghost x: Item<Entry>) returns (next: HlistNode?)
      requires ht.Valid() && LinkedContained(order) && x in order
      requires bkt < |ht.chains| && ht.chains[bkt] != [] && ht.chains[bkt][0] == pos == x.val.hnode
      requires x.val.lnode !in ht.Repr
      modifies this`freed, ht`chains, ht`Repr, (set h | h in ht.table)`first
      modifies ht.Nodes()`next, ht.Nodes()`pprev, x.val.hnode, x.val.lnode
      ensures ht.Valid() && LinkedContained(order) && ht.Repr == old(ht.Repr) - {pos}
      ensures ht.chains == old(ht.chains)[bkt := old(ht.chains)[bkt][1..]]
      ensures next == NodeAt(ht.chains[bkt], 0)
      ensures freed == old(freed) + [x.val]
    {
      ht.FirstNode(bkt);
      hide HashTable.Valid, HashTable.Nodes;
      var cur := pos.container as Entry;
      var tmp := pos.next;
      ht.DelInit(pos, bkt, 0);
      assert RemoveAt(old(ht.chains)[bkt], 0) == old(ht.chains)[bkt][1..];
      FreeEntry(cur);
      return tmp;
    }
  }

  /** `array_create` and `ht_create`: NULL when any of the three allocations fails. */
  method ArrayCreate(bits: nat, arrayAllocated: bool, tableAllocated: bool, bucketsAllocated: bool)
    returns (arr: AssocArray?)
    requires bits <= MAX_BITS
    ensures arr == null <==> !(arrayAllocated && tableAllocated && bucketsAllocated)
    ensures arr != null ==> arr.Valid() && fresh(arr.Repr) && arr.order == [] && arr.ht.bits == bits
  {
    if !arrayAllocated || !tableAllocated || !bucketsAllocated {
      return null;
    }
    arr := new AssocArray(bits);
  }

  lemma JustAdded(order: seq<Item<Entry>>, x: Item<Entry>, bits: nat)
    ensures LookupDecided(order + [x], bits, x.key)
  {
    assert (order + [x])[..|order|] == order;
  }

  /** From any reachable state, adding a key and deleting it restores list, chains and size exactly. */
  method AddThenDelRestores(arr: AssocArray, data: Data, key: Key)
    requires arr.Valid()
    modifies arr.Repr
    ensures arr.Valid() && arr.order == old(arr.order) && arr.size == old(arr.size)
    ensures arr.ht.chains == old(arr.ht.chains)
  {
    hide HashTable.Valid, Ring, Contained, ChainOf, NewestMatch, LookupDecided, AssocArray.Owned;
    ghost var order := arr.order;
    arr.ht.TableSize();
    var ret := arr.Add(data, key, true, true);
    ghost var x := arr.order[|order|];
    JustAdded(order, x, arr.ht.bits);
    ret := arr.Del(key);
    OrderedMaps.AddThenDel(order, arr.ht.bits, key, x.val);
    arr.ht.TableSize();
  }
}
