/**
 What assoc_array.c computes, as functions of the order list alone: the oldest item first, each
 with its key. The hash index is determined by it (`ChainOf`), and so is every lookup.
 */
module ArraySpec {
  import opened Words
  import opened Seqs
  import opened HashTables
  import Hash

  // Key sizes are passed as `uint8_t`.
  type Key = k: seq<byte> | |k| <= 0xff witness []

  datatype Item<+T> = Item(key: Key, val: T)

  // ---------------------------------------------------------------- the index

  /** The bucket `b` as a walk from its head meets it: newest first. */
  function ChainOf<T>(order: seq<Item<T>>, bits: nat, b: nat): (chain: seq<Item<T>>) {
    if order == [] then []
    else
      var last := order[|order| - 1];
      var rest := ChainOf(order[..|order| - 1], bits, b);
      if BucketOf(last.key, bits) == b then [last] + rest else rest
  }

  /** The items of bucket `b`, in list order. */
  function Filtered<T>(order: seq<Item<T>>, bits: nat, b: nat): seq<Item<T>> {
    if order == [] then []
    else
      var rest := Filtered(order[1..], bits, b);
      if BucketOf(order[0].key, bits) == b then [order[0]] + rest else rest
  }

  lemma {:induction false} ChainOfConcat<T>(a: seq<Item<T>>, c: seq<Item<T>>, bits: nat, b: nat)
    ensures ChainOf(a + c, bits, b) == ChainOf(c, bits, b) + ChainOf(a, bits, b)
    decreases |c|
  {
    if c == [] {
      assert a + c == a;
    } else {
      assert (a + c)[..|a + c| - 1] == a + c[..|c| - 1];
      ChainOfConcat(a, c[..|c| - 1], bits, b);
    }
  }

  /** Each bucket is exactly the reverse of the order list filtered to that bucket. */
  lemma {:induction false} ChainIsReversedFilter<T>(order: seq<Item<T>>, bits: nat, b: nat)
    ensures ChainOf(order, bits, b) == Reverse(Filtered(order, bits, b))
    decreases |order|
  {
    if order == [] {
    } else {
      assert order == [order[0]] + order[1..];
      ChainOfConcat([order[0]], order[1..], bits, b);
      ChainIsReversedFilter(order[1..], bits, b);
      var rest := Filtered(order[1..], bits, b);
      assert ([order[0]] + rest)[1..] == rest;
    }
  }

  /** An item is in the chain of its own bucket and in no other. */
  lemma {:induction false} ChainMembers<T>(order: seq<Item<T>>, bits: nat, b: nat, x: Item<T>)
    ensures x in ChainOf(order, bits, b) <==> x in order && BucketOf(x.key, bits) == b
    decreases |order|
  {
    if order != [] {
      var n := |order| - 1;
      ChainMembers(order[..n], bits, b, x);
      assert order == order[..n] + [order[n]];
    }
  }

  /** The chain around one item of the order list: the newer part, the item if it belongs, the older part. */
  lemma ChainAround<T>(order: seq<Item<T>>, i: nat, bits: nat, b: nat)
    requires i < |order|
    ensures ChainOf(order, bits, b) ==
            ChainOf(order[i + 1..], bits, b)
            + (if BucketOf(order[i].key, bits) == b then [order[i]] else [])
            + ChainOf(order[..i], bits, b)
  {
    assert order == order[..i + 1] + order[i + 1..];
    ChainOfConcat(order[..i + 1], order[i + 1..], bits, b);
    assert order[..i + 1][..i] == order[..i];
  }

  /** Deleting an item from the order list deletes it from its chain and leaves the other chains alone. */
  lemma ChainAfterRemoval<T>(order: seq<Item<T>>, i: nat, bits: nat, b: nat)
    requires i < |order|
    ensures var chain := ChainOf(order, bits, b);
            var k := |ChainOf(order[i + 1..], bits, b)|;
            if BucketOf(order[i].key, bits) != b then ChainOf(RemoveAt(order, i), bits, b) == chain
            else k < |chain| && chain[k] == order[i] && ChainOf(RemoveAt(order, i), bits, b) == RemoveAt(chain, k)
  {
    hide ChainOf, BucketOf;
    ChainAround(order, i, bits, b);
    ChainOfConcat(order[..i], order[i + 1..], bits, b);
  }

  // ---------------------------------------------------------------- lookup

  /** The first item of a chain whose stored key starts with the query; the chain's length if none does. */
  function FirstMatch<T>(chain: seq<Item<T>>, q: Key): (m: nat)
    ensures m <= |chain|
    ensures m < |chain| ==> q <= chain[m].key
    ensures forall i :: 0 <= i < m ==> !(q <= chain[i].key)
  {
    if chain == [] then 0
    else if q <= chain[0].key then 0
    else 1 + FirstMatch(chain[1..], q)
  }

  /**
   Every comparison of the scan is decided inside the bytes of the stored key: `memcmp` reads as
   many bytes as the query has, and only a proper prefix of the query runs out of bytes first.
  */
  predicate ScanDecided<T>(chain: seq<Item<T>>, q: Key) {
    forall i :: 0 <= i <= FirstMatch(chain, q) && i < |chain| ==> !(chain[i].key < q)
  }

  /** That is: every stored proper prefix of the query stands behind an item that the query matches. */
  lemma ScanDecidedExactly<T>(chain: seq<Item<T>>, q: Key)
    ensures ScanDecided(chain, q) <==>
            forall i :: 0 <= i < |chain| && chain[i].key < q ==> exists j :: 0 <= j < i && q <= chain[j].key
  {
    var m := FirstMatch(chain, q);
    if ScanDecided(chain, q) {
      forall i | 0 <= i < |chain| && chain[i].key < q
        ensures exists j :: 0 <= j < i && q <= chain[j].key
      {
        assert m < i && q <= chain[m].key;
      }
    }
  }

  /** The lookup of this key is decided inside the bytes of the stored keys. */
  predicate LookupDecided<T>(order: seq<Item<T>>, bits: nat, q: Key) {
    ScanDecided(ChainOf(order, bits, BucketOf(q, bits)), q)
  }

  predicate MatchesInBucket<T>(x: Item<T>, bits: nat, q: Key) {
    BucketOf(x.key, bits) == BucketOf(q, bits) && q <= x.key
  }

  /** The newest item of the query's bucket whose stored key starts with the query, or -1. */
  function NewestMatch<T>(order: seq<Item<T>>, bits: nat, q: Key): (m: int)
    ensures -1 <= m < |order|
    ensures m >= 0 ==> MatchesInBucket(order[m], bits, q)
    ensures forall i :: m < i < |order| ==> !MatchesInBucket(order[i], bits, q)
  {
    if order == [] then -1
    else if MatchesInBucket(order[|order| - 1], bits, q) then |order| - 1
    else NewestMatch(order[..|order| - 1], bits, q)
  }

  /** The newest item with exactly this key, or -1. */
  function NewestEqual<T>(order: seq<Item<T>>, q: Key): (m: int)
    ensures -1 <= m < |order|
    ensures m >= 0 ==> order[m].key == q
    ensures forall i :: m < i < |order| ==> order[i].key != q
  {
    if order == [] then -1
    else if order[|order| - 1].key == q then |order| - 1
    else NewestEqual(order[..|order| - 1], q)
  }

  /** A stretch of the order list without a match contributes no match to the chain. */
  lemma NoMatchInChain<T>(part: seq<Item<T>>, bits: nat, q: Key)
    requires forall i :: 0 <= i < |part| ==> !MatchesInBucket(part[i], bits, q)
    ensures var chain := ChainOf(part, bits, BucketOf(q, bits));
            forall j :: 0 <= j < |chain| ==> !(q <= chain[j].key)
  {
    var chain := ChainOf(part, bits, BucketOf(q, bits));
    forall j | 0 <= j < |chain|
      ensures !(q <= chain[j].key)
    {
      ChainMembers(part, bits, BucketOf(q, bits), chain[j]);
    }
  }

  lemma FirstMatchBehind<T>(front: seq<Item<T>>, x: Item<T>, back: seq<Item<T>>, q: Key)
    requires q <= x.key && forall j :: 0 <= j < |front| ==> !(q <= front[j].key)
    ensures FirstMatch(front + [x] + back, q) == |front|
  {
    var chain := front + [x] + back;
    assert chain[|front|] == x;
    assert forall j :: 0 <= j < |front| ==> chain[j] == front[j];
  }

  /** The scan of one bucket finds the newest match of the whole order list, at this place of the chain. */
  lemma FirstMatchIsNewest<T>(order: seq<Item<T>>, bits: nat, q: Key)
    ensures var chain := ChainOf(order, bits, BucketOf(q, bits));
            var i, m := NewestMatch(order, bits, q), FirstMatch(chain, q);
            if i < 0 then m == |chain|
            else m < |chain| && chain[m] == order[i] && m == |ChainOf(order[i + 1..], bits, BucketOf(q, bits))|
  {
    var i := NewestMatch(order, bits, q);
    if i < 0 {
      NoMatchInChain(order, bits, q);
    } else {
      var b := BucketOf(q, bits);
      NoMatchInChain(order[i + 1..], bits, q);
      ChainAround(order, i, bits, b);
      FirstMatchBehind(ChainOf(order[i + 1..], bits, b), order[i], ChainOf(order[..i], bits, b), q);
    }
  }

  // ---------------------------------------------------------------- the operations

  /**
   One call on the array. `AddFailed` and `ReplaceFailed` are calls with a failing allocation: that of
   the entry itself or, once the entry is allocated, that of its key.
  */
  datatype Op<+T> =
    | Add(key: Key, val: T)
    | AddFailed(key: Key, entryAllocated: bool)
    | Replace(key: Key, val: T)
    | ReplaceFailed(key: Key, entryAllocated: bool)
    | Del(key: Key)
    | DelFirst
    | DelLast

  function Deleted<T>(order: seq<Item<T>>, bits: nat, q: Key): (r: seq<Item<T>>)
    ensures |r| <= |order|
  {
    var i := NewestMatch(order, bits, q);
    if i < 0 then order else RemoveAt(order, i)
  }

  function Step<T>(order: seq<Item<T>>, bits: nat, op: Op<T>): seq<Item<T>> {
    match op
    case Add(k, v) => order + [Item(k, v)]
    case AddFailed(_, _) => order
    case Replace(k, v) => Deleted(order, bits, k) + [Item(k, v)]
    case ReplaceFailed(k, _) => Deleted(order, bits, k)
    case Del(k) => Deleted(order, bits, k)
    case DelFirst => if order == [] then order else order[1..]
    case DelLast => if order == [] then order else order[..|order| - 1]
  }

  function Run<T>(order: seq<Item<T>>, bits: nat, ops: seq<Op<T>>): seq<Item<T>>
    decreases |ops|
  {
    if ops == [] then order else Step(Run(order, bits, ops[..|ops| - 1]), bits, ops[|ops| - 1])
  }

  lemma RunLonger<T>(order: seq<Item<T>>, bits: nat, ops: seq<Op<T>>, i: nat)
    requires i < |ops|
    ensures Run(order, bits, ops[..i + 1]) == Step(Run(order, bits, ops[..i]), bits, ops[i])
  {
    assert ops[..i + 1][..i] == ops[..i];
  }

  lemma NothingRun<T>(order: seq<Item<T>>, bits: nat, ops: seq<Op<T>>)
    ensures Run(order, bits, ops[..0]) == order && ops[..|ops|] == ops
  {
  }

  /** The lookup that the call makes, if it makes one, is decided. */
  predicate OpDecided<T, U>(order: seq<Item<T>>, bits: nat, op: Op<U>) {
    match op
    case Replace(k, _) => LookupDecided(order, bits, k)
    case ReplaceFailed(k, _) => LookupDecided(order, bits, k)
    case Del(k) => LookupDecided(order, bits, k)
    case _ => true
  }

  /** So is every lookup of the run. */
  ghost predicate RunDecided<T>(order: seq<Item<T>>, bits: nat, ops: seq<Op<T>>) {
    forall i :: 0 <= i < |ops| ==> OpDecided(Run(order, bits, ops[..i]), bits, ops[i])
  }

  // ---------------------------------------------------------------- when lookup is by equality

  /** No stored key is a proper prefix of the query, nor the query of a stored key. */
  ghost predicate PrefixFreeQuery<T>(order: seq<Item<T>>, q: Key) {
    forall i :: 0 <= i < |order| ==> !(order[i].key < q) && !(q < order[i].key)
  }

  /** With a prefix-free query, the scan returns the newest item with an equal key, and reads no foreign byte. */
  lemma PrefixFreeLookup<T>(order: seq<Item<T>>, bits: nat, q: Key)
    requires PrefixFreeQuery(order, q)
    ensures NewestMatch(order, bits, q) == NewestEqual(order, q)
    ensures LookupDecided(order, bits, q)
  {
    ClashFreeLookup(order, bits, q);
  }

  /** Keys of one size are prefix-free. */
  lemma SameSizeKeysPrefixFree<T>(order: seq<Item<T>>, q: Key)
    requires forall i :: 0 <= i < |order| ==> |order[i].key| == |q|
    ensures PrefixFreeQuery(order, q)
  {
  }

  /** A string with its terminating NUL counted and no NUL before it. */
  predicate NulTerminated(k: Key) {
    && |k| > 0 && k[|k| - 1] == 0
    && forall i :: 0 <= i < |k| - 1 ==> k[i] != 0
  }

  lemma NulTerminatedPrefix(k: Key, l: Key)
    requires NulTerminated(k) && NulTerminated(l)
    ensures !(k < l)
  {
    if |k| < |l| {
      assert k[|k| - 1] != l[|k| - 1];
    }
  }

  /** NUL-terminated keys are prefix-free. */
  lemma NulTerminatedKeysPrefixFree<T>(order: seq<Item<T>>, q: Key)
    requires NulTerminated(q)
    requires forall i :: 0 <= i < |order| ==> NulTerminated(order[i].key)
    ensures PrefixFreeQuery(order, q)
  {
    forall i | 0 <= i < |order|
      ensures !(order[i].key < q) && !(q < order[i].key)
    {
      NulTerminatedPrefix(order[i].key, q);
      NulTerminatedPrefix(q, order[i].key);
    }
  }

  // The exact condition, on a set of keys a caller may use.

  ghost predicate Over<T>(order: seq<Item<T>>, keys: set<Key>) {
    forall i :: 0 <= i < |order| ==> order[i].key in keys
  }

  /** Lookups among these keys: decided inside stored bytes, and answering with the newest equal key. */
  ghost predicate LookupsExact(keys: set<Key>, bits: nat) {
    forall order: seq<Item<int>>, q: Key {:trigger NewestMatch(order, bits, q)} :: Over(order, keys) && q in keys ==>
      && LookupDecided(order, bits, q)
      && NewestMatch(order, bits, q) == NewestEqual(order, q)
  }

  /** Two keys of one bucket where one extends the other. */
  predicate Clash(k: Key, l: Key, bits: nat) {
    k < l && BucketOf(k, bits) == BucketOf(l, bits)
  }

  /** Lookups are exact precisely when no key of a bucket extends another key of that bucket. */
  lemma LookupsExactIff(keys: set<Key>, bits: nat)
    ensures LookupsExact(keys, bits) <==> forall k, l :: k in keys && l in keys ==> !Clash(k, l, bits)
  {
    if LookupsExact(keys, bits) {
      forall k, l | k in keys && l in keys
        ensures !Clash(k, l, bits)
      {
        if Clash(k, l, bits) {
          ClashMisleads(k, l, bits);
          assert Over([Item(l, 0)], keys);
          assert false;
        }
      }
    }
    if forall k, l :: k in keys && l in keys ==> !Clash(k, l, bits) {
      forall order: seq<Item<int>>, q: Key | Over(order, keys) && q in keys
        ensures LookupDecided(order, bits, q)
        ensures NewestMatch(order, bits, q) == NewestEqual(order, q)
      {
        ClashFreeLookup(order, bits, q);
      }
    }
  }

  /** With only the longer of two clashing keys stored, a lookup of the shorter one finds it. */
  lemma ClashMisleads(k: Key, l: Key, bits: nat)
    requires Clash(k, l, bits)
    ensures NewestMatch([Item(l, 0)], bits, k) == 0 && NewestEqual([Item(l, 0)], k) == -1
  {
    var order := [Item(l, 0)];
    assert MatchesInBucket(order[0], bits, k);
    assert order[..0] == [];
  }

  /** With only the shorter one stored, the comparison for the longer one runs past the stored bytes. */
  lemma ClashOverreads(k: Key, l: Key, bits: nat)
    requires Clash(k, l, bits)
    ensures !LookupDecided([Item(k, 0)], bits, l)
  {
    var order := [Item(k, 0)];
    assert order[..0] == [];
    assert ChainOf(order, bits, BucketOf(l, bits)) == order;
  }

  lemma ClashFreeLookup<T>(order: seq<Item<T>>, bits: nat, q: Key)
    requires forall i :: 0 <= i < |order| ==> !Clash(order[i].key, q, bits) && !Clash(q, order[i].key, bits)
    ensures LookupDecided(order, bits, q)
    ensures NewestMatch(order, bits, q) == NewestEqual(order, q)
  {
    forall i | 0 <= i < |order|
      ensures MatchesInBucket(order[i], bits, q) <==> order[i].key == q
    {
      assert !Clash(q, order[i].key, bits);
    }
    var b := BucketOf(q, bits);
    var chain := ChainOf(order, bits, b);
    forall i | 0 <= i < |chain|
      ensures !(chain[i].key < q)
    {
      ChainMembers(order, bits, b, chain[i]);
      assert !Clash(chain[i].key, q, bits);
    }
  }

  /**
   Such keys exist in every table: [5] and [5, 0] have one hash. The lookup of [5] returns [5, 0], and
   the lookup of [5, 0] reads beyond a stored [5].
  */
  lemma PrefixKeysClash(bits: nat)
    ensures Clash([5], [5, 0], bits)
    ensures NewestMatch([Item([5, 0], 0)], bits, [5]) == 0 && NewestEqual([Item([5, 0], 0)], [5]) == -1
    ensures !LookupDecided([Item([5], 0)], bits, [5, 0])
  {
    FivesClash(bits);
    ClashMisleads([5], [5, 0], bits);
    ClashOverreads([5], [5, 0], bits);
  }

  lemma FivesClash(bits: nat)
    ensures Clash([5], [5, 0], bits)
  {
    assert Hash.ChunkSum([5]) == 5 by {
      assert [5][1..] == [];
    }
    assert Hash.ChunkSum([5, 0]) == 5 by {
      assert [5, 0][1..] == [0];
      assert [0][1..] == [];
    }
  }

  // ---------------------------------------------------------------- counting

  /** The items of the first `n` buckets, bucket by bucket: the order in which teardown visits them. */
  function BucketWalk<T>(order: seq<Item<T>>, bits: nat, n: nat): seq<Item<T>> {
    if n == 0 then [] else BucketWalk(order, bits, n - 1) + ChainOf(order, bits, n - 1)
  }

  ghost function WithIf<T>(m: multiset<T>, x: T, add: bool): multiset<T> {
    if add then m + multiset{x} else m
  }

  ghost function WalkBag<T>(order: seq<Item<T>>, bits: nat, n: nat): multiset<Item<T>> {
    multiset(BucketWalk(order, bits, n))
  }

  ghost function ChainBag<T>(order: seq<Item<T>>, bits: nat, b: nat): multiset<Item<T>> {
    multiset(ChainOf(order, bits, b))
  }

  lemma {:induction false} WalkGrows<T>(order: seq<Item<T>>, older: seq<Item<T>>, x: Item<T>, bits: nat, n: nat)
    requires order == older + [x]
    ensures WalkBag(order, bits, n) == WithIf(WalkBag(older, bits, n), x, BucketOf(x.key, bits) < n)
    decreases n
  {
    if n > 0 {
      hide WalkBag, WithIf, BucketOf;
      WalkGrows(order, older, x, bits, n - 1);
      GrowsFurther(order, older, x, bits, n);
    }
  }

  lemma GrowsFurther<T>(order: seq<Item<T>>, older: seq<Item<T>>, x: Item<T>, bits: nat, n: nat)
    requires n > 0 && order == older + [x]
    requires WalkBag(order, bits, n - 1) == WithIf(WalkBag(older, bits, n - 1), x, BucketOf(x.key, bits) < n - 1)
    ensures WalkBag(order, bits, n) == WithIf(WalkBag(older, bits, n), x, BucketOf(x.key, bits) < n)
  {
    hide WalkBag, ChainBag, BucketOf, WithIf;
    var b := BucketOf(x.key, bits);
    assert ChainBag(order, bits, n - 1) == WithIf(ChainBag(older, bits, n - 1), x, b == n - 1) by {
      ChainGrows(order, older, x, bits, n - 1);
    }
    WalkLonger(order, bits, n);
    WalkLonger(older, bits, n);
    AddedOnce(WalkBag(older, bits, n - 1), b < n - 1, ChainBag(older, bits, n - 1), b == n - 1, x);
  }

  /** An item added to one of two parts is added to their sum. */
  lemma AddedOnce<T>(a: multiset<T>, toA: bool, c: multiset<T>, toC: bool, x: T)
    requires !(toA && toC)
    ensures WithIf(a, x, toA) + WithIf(c, x, toC) == WithIf(a + c, x, toA || toC)
  {
  }

  lemma WalkLonger<T>(order: seq<Item<T>>, bits: nat, n: nat)
    requires n > 0
    ensures WalkBag(order, bits, n) == WalkBag(order, bits, n - 1) + ChainBag(order, bits, n - 1)
  {
  }

  lemma ChainGrows<T>(order: seq<Item<T>>, older: seq<Item<T>>, x: Item<T>, bits: nat, b: nat)
    requires order == older + [x]
    ensures ChainBag(order, bits, b) == WithIf(ChainBag(older, bits, b), x, BucketOf(x.key, bits) == b)
  {
    assert order[..|order| - 1] == older;
  }

  /** Walking all buckets meets every item of the order list exactly as often as the list holds it. */
  lemma {:induction false} WalkIsPermutation<T>(order: seq<Item<T>>, bits: nat)
    ensures multiset(BucketWalk(order, bits, Pow2(bits))) == multiset(order)
    decreases |order|
  {
    if order == [] {
      EmptyWalk<T>(bits, Pow2(bits));
    } else {
      var n := |order| - 1;
      assert order == order[..n] + [order[n]];
      WalkGrows(order, order[..n], order[n], bits, Pow2(bits));
      WalkIsPermutation(order[..n], bits);
    }
  }

  lemma {:induction false} EmptyWalk<T>(bits: nat, n: nat)
    ensures BucketWalk<T>([], bits, n) == []
  {
    if n > 0 {
      EmptyWalk<T>(bits, n - 1);
    }
  }

  /**
   Later items of the sequence come from higher buckets, and within one bucket from earlier places of
   the order list.
  */
  ghost predicate TornDown<T>(walk: seq<Item<T>>, order: seq<Item<T>>, bits: nat) {
    forall i, j, p, q ::
      0 <= i < j < |walk| && 0 <= p < |order| && 0 <= q < |order| && walk[i] == order[p] && walk[j] == order[q]
      ==> TornDownFirst(order, bits, p, q)
  }

  /** The item at `p` is torn down before the one at `q`. */
  predicate TornDownFirst<T>(order: seq<Item<T>>, bits: nat, p: nat, q: nat)
    requires p < |order| && q < |order|
  {
    var b, c := BucketOf(order[p].key, bits), BucketOf(order[q].key, bits);
    b < c || (b == c && p > q)
  }

  lemma {:induction false} ChainPlaces<T>(order: seq<Item<T>>, bits: nat, b: nat, i: nat, j: nat, p: nat, q: nat)
    requires Distinct(order) && i < j < |ChainOf(order, bits, b)| && p < |order| && q < |order|
    requires ChainOf(order, bits, b)[i] == order[p] && ChainOf(order, bits, b)[j] == order[q]
    ensures q < p
    decreases |order|
  {
    var n := |order| - 1;
    var older := order[..n];
    var rest := ChainOf(older, bits, b);
    var shift := |ChainOf(order, bits, b)| - |rest|;
    ChainMembers(older, bits, b, order[q]);
    assert order[q] in older;
    if i >= shift {
      ChainMembers(older, bits, b, order[p]);
      assert order[p] in older;
      ChainPlaces(older, bits, b, i - shift, j - shift, p, q);
    }
  }

  lemma {:induction false} WalkBuckets<T>(order: seq<Item<T>>, bits: nat, n: nat, x: Item<T>)
    requires x in BucketWalk(order, bits, n)
    ensures x in order && BucketOf(x.key, bits) < n
    decreases n
  {
    hide ChainOf, BucketOf;
    if x in ChainOf(order, bits, n - 1) {
      ChainMembers(order, bits, n - 1, x);
    } else {
      WalkBuckets(order, bits, n - 1, x);
    }
  }

  /** Teardown goes through the buckets in ascending order and through each from its newest item. */
  lemma {:induction false} WalkTornDown<T>(order: seq<Item<T>>, bits: nat, n: nat)
    requires Distinct(order)
    ensures TornDown(BucketWalk(order, bits, n), order, bits)
    decreases n
  {
    if n > 0 {
      WalkTornDown(order, bits, n - 1);
      WalkPlaces(order, bits, n);
    }
  }

  lemma WalkPlaces<T>(order: seq<Item<T>>, bits: nat, n: nat)
    requires n > 0 && Distinct(order) && TornDown(BucketWalk(order, bits, n - 1), order, bits)
    ensures TornDown(BucketWalk(order, bits, n), order, bits)
  {
    var walk, before, chain := BucketWalk(order, bits, n), BucketWalk(order, bits, n - 1), ChainOf(order, bits, n - 1);
    assert walk == before + chain;
    hide BucketWalk, ChainOf, TornDownFirst, Distinct;
    var m := |before|;
    forall i, j, p, q | 0 <= i < j < |walk| && 0 <= p < |order| && 0 <= q < |order|
                        && walk[i] == order[p] && walk[j] == order[q]
      ensures TornDownFirst(order, bits, p, q)
    {
      if j < m {
        assert before[i] == order[p] && before[j] == order[q];
      } else if i < m {
        assert before[i] == order[p] && chain[j - m] == order[q];
        EarlierBucket(order, bits, n - 1, p, q);
      } else {
        assert chain[i - m] == order[p] && chain[j - m] == order[q];
        SameBucket(order, bits, n - 1, i - m, j - m, p, q);
      }
    }
  }

  lemma EarlierBucket<T>(order: seq<Item<T>>, bits: nat, n: nat, p: nat, q: nat)
    requires p < |order| && order[p] in BucketWalk(order, bits, n)
    requires q < |order| && order[q] in ChainOf(order, bits, n)
    ensures TornDownFirst(order, bits, p, q)
  {
    WalkBuckets(order, bits, n, order[p]);
    ChainMembers(order, bits, n, order[q]);
  }

  lemma SameBucket<T>(order: seq<Item<T>>, bits: nat, b: nat, i: nat, j: nat, p: nat, q: nat)
    requires Distinct(order) && i < j < |ChainOf(order, bits, b)| && p < |order| && q < |order|
    requires ChainOf(order, bits, b)[i] == order[p] && ChainOf(order, bits, b)[j] == order[q]
    ensures TornDownFirst(order, bits, p, q)
  {
    ChainPlaces(order, bits, b, i, j, p, q);
    ChainMembers(order, bits, b, order[p]);
    ChainMembers(order, bits, b, order[q]);
  }

  /** How many of the first `n` buckets hold something. */
  function NonEmpty<T>(order: seq<Item<T>>, bits: nat, n: nat): (c: nat)
    ensures c <= n
  {
    if n == 0 then 0 else NonEmpty(order, bits, n - 1) + if ChainOf(order, bits, n - 1) == [] then 0 else 1
  }

  /** Entries that share their bucket with an earlier one, over the first `n` buckets. */
  function Collisions<T>(order: seq<Item<T>>, bits: nat, n: nat): nat {
    if n == 0 then 0
    else
      var count := |ChainOf(order, bits, n - 1)|;
      Collisions(order, bits, n - 1) + if count > 1 then count - 1 else 0
  }

  /** That is the number of different buckets among the stored keys. */
  lemma {:induction false} NonEmptyBuckets<T>(order: seq<Item<T>>, bits: nat, n: nat)
    ensures NonEmpty(order, bits, n) == |set x | x in order && BucketOf(x.key, bits) < n :: BucketOf(x.key, bits)|
    decreases n
  {
    var below := set x | x in order && BucketOf(x.key, bits) < n :: BucketOf(x.key, bits);
    if n > 0 {
      NonEmptyBuckets(order, bits, n - 1);
      var fewer := set x | x in order && BucketOf(x.key, bits) < n - 1 :: BucketOf(x.key, bits);
      ChainNonEmpty(order, bits, n - 1);
      hide ChainOf, BucketOf;
      if ChainOf(order, bits, n - 1) == [] {
        assert below == fewer;
      } else {
        assert below == fewer + {n - 1};
      }
    }
  }

  lemma ChainNonEmpty<T>(order: seq<Item<T>>, bits: nat, b: nat)
    ensures ChainOf(order, bits, b) != [] <==> exists x :: x in order && BucketOf(x.key, bits) == b
  {
    var chain := ChainOf(order, bits, b);
    if chain != [] {
      ChainMembers(order, bits, b, chain[0]);
    }
    if x :| x in order && BucketOf(x.key, bits) == b {
      ChainMembers(order, bits, b, x);
    }
  }

  lemma {:induction false} CollisionsCount<T>(order: seq<Item<T>>, bits: nat, n: nat)
    ensures Collisions(order, bits, n) == |BucketWalk(order, bits, n)| - NonEmpty(order, bits, n)
  {
    if n > 0 {
      CollisionsCount(order, bits, n - 1);
    }
  }

  /** Over the whole table: the collisions are the entries minus the occupied buckets. */
  lemma CollisionsTotal<T>(order: seq<Item<T>>, bits: nat)
    ensures Collisions(order, bits, Pow2(bits)) == |order| - NonEmpty(order, bits, Pow2(bits))
    ensures order != [] ==> NonEmpty(order, bits, Pow2(bits)) >= 1
  {
    CollisionsCount(order, bits, Pow2(bits));
    WalkIsPermutation(order, bits);
    assert |multiset(BucketWalk(order, bits, Pow2(bits)))| == |multiset(order)|;
    if NonEmpty(order, bits, Pow2(bits)) == 0 {
      NothingOccupied(order, bits, Pow2(bits));
    }
  }

  lemma {:induction false} NothingOccupied<T>(order: seq<Item<T>>, bits: nat, n: nat)
    requires NonEmpty(order, bits, n) == 0
    ensures BucketWalk(order, bits, n) == []
  {
    if n > 0 {
      NothingOccupied(order, bits, n - 1);
    }
  }

  /** What `array_collision_percent` reports for a non-empty array. */
  function CollisionPercent<T>(order: seq<Item<T>>, bits: nat): int
    requires order != []
  {
    Collisions(order, bits, Pow2(bits)) * 100 / |order|
  }

  /** It is below 100, and at least the share that the pigeonhole principle forces. */
  lemma CollisionPercentBounds<T>(order: seq<Item<T>>, bits: nat)
    requires order != []
    ensures CollisionPercent(order, bits) == 100 * (|order| - NonEmpty(order, bits, Pow2(bits))) / |order|
    ensures 0 <= CollisionPercent(order, bits) <= 99
    ensures |order| > Pow2(bits) ==> CollisionPercent(order, bits) >= 100 * (|order| - Pow2(bits)) / |order|
  {
    hide Collisions, NonEmpty, Pow2;
    CollisionsTotal(order, bits);
    var n, occupied := |order|, NonEmpty(order, bits, Pow2(bits));
    assert Collisions(order, bits, Pow2(bits)) * 100 == 100 * (n - occupied);
    PercentBounds(n, occupied);
    if n > Pow2(bits) {
      DivMonotone(100 * (n - Pow2(bits)), 100 * (n - occupied), n);
    }
  }

  lemma PercentBounds(n: nat, occupied: nat)
    requires 1 <= occupied <= n
    ensures 0 <= 100 * (n - occupied) / n <= 99
  {
    assert 100 * (n - occupied) < 100 * n;
    DivBelow(100 * (n - occupied), 100, n);
    DivMonotone(0, 100 * (n - occupied), n);
    assert 0 / n == 0;
  }

  lemma DivMonotone(x: nat, y: nat, d: nat)
    requires x <= y && d > 0
    ensures x / d <= y / d
  {
    var q := y / d;
    assert y < (q + 1) * d;
    DivBelow(x, q + 1, d);
  }
}
