/**
 hashtable.h and hashtable.c: bucket selection, and a table of `2^bits` hlist buckets.
 */
module HashTables {
  import opened Words
  import opened Seqs
  import opened HList
  import Hash

  // `1 << bits` is computed as an `int`.
  const MAX_BITS: nat := 30

  /** `calc_bkt`: mask the key with `divisor - 1`. */
  function CalcBkt(num: u32, divisor: nat): nat
    requires divisor >= 1
  {
    BitAnd(num, divisor - 1)
  }

  /** For a power-of-two divisor the mask is the remainder, so the bucket is always in range. */
  lemma CalcBktIsRemainder(num: u32, bits: nat)
    ensures CalcBkt(num, Pow2(bits)) == num % Pow2(bits) < Pow2(bits)
  {
    BitAndMask(num, bits);
  }

  ghost predicate IsPowerOfTwo(d: nat) {
    exists k: nat :: d == Pow2(k)
  }

  ghost predicate MasksLikeRemainder(divisor: nat)
    requires divisor >= 1
  {
    forall num: u32 :: CalcBkt(num, divisor) == num % divisor
  }

  /**
   The mask is the remainder for every key exactly when the divisor is a power of two, so the
   demand on the divisor is real although nothing checks it.
  */
  lemma CalcBktExactly(divisor: nat)
    requires 1 <= divisor <= TWO_TO_THE_31
    ensures MasksLikeRemainder(divisor) <==> IsPowerOfTwo(divisor)
  {
    if IsPowerOfTwo(divisor) {
      var k: nat :| divisor == Pow2(k);
      forall num: u32
        ensures CalcBkt(num, divisor) == num % divisor
      {
        CalcBktIsRemainder(num, k);
      }
    }
    if MasksLikeRemainder(divisor) {
      RemainderKeeps(divisor, divisor - 1);
      FullMask(divisor - 1);
    }
  }

  /** With three buckets, key 3 would belong to bucket 0 and is put into bucket 2. */
  lemma MaskOfThree()
    ensures CalcBkt(3, 3) == 2 && 3 % 3 == 0
  {
  }

  ghost predicate KeepsUpTo(m: nat) {
    forall x: u32 :: x <= m ==> BitAnd(x, m) == x
  }

  lemma RemainderKeeps(divisor: nat, m: nat)
    requires divisor >= 1 && m == divisor - 1 && MasksLikeRemainder(divisor)
    ensures KeepsUpTo(m)
  {
    hide BitAnd;
    forall x: u32 | x <= m
      ensures BitAnd(x, m) == x
    {
      assert CalcBkt(x, divisor) == x % divisor;
      DivModUnique(x, divisor, 0, x);
    }
  }

  /** A mask that keeps every number up to itself is all ones. */
  lemma {:induction false} FullMask(m: nat)
    requires m < TWO_TO_THE_31 && KeepsUpTo(m)
    ensures IsPowerOfTwo(m + 1)
    decreases m
  {
    if m == 0 {
      assert m + 1 == Pow2(0);
    } else {
      var half := m / 2;
      OddMask(m);
      forall x: u32 | x <= half
        ensures BitAnd(x, half) == x
      {
        assert BitAnd(2 * x, m) == 2 * x;
      }
      FullMask(half);
      var k: nat :| half + 1 == Pow2(k);
      assert m + 1 == Pow2(k + 1);
    }
  }

  lemma OddMask(m: nat)
    requires m > 0 && KeepsUpTo(m)
    ensures m % 2 == 1
  {
    assert BitAnd(1, m) == 1;
  }

  /** The bucket of a key in a table of `2^bits` buckets. */
  function BucketOf(key: seq<byte>, bits: nat): (b: nat)
    ensures b < Pow2(bits)
  {
    Hash.Hash32Str(key) % Pow2(bits)
  }

  /**
   The lookup path keeps the hash in a `u32` and the insertion path in a signed `int`; both select
   the same bucket.
  */
  lemma SameBucketOnBothPaths(key: seq<byte>, bits: nat)
    ensures CalcBkt(Hash.Hash32Str(key), Pow2(bits)) == BucketOf(key, bits)
    ensures CalcBkt(ToU32(ToInt32(Hash.Hash32Str(key))), Pow2(bits)) == BucketOf(key, bits)
  {
    var hash := Hash.Hash32Str(key);
    CalcBktIsRemainder(hash, bits);
    WordThroughInt(hash);
  }

  /** With at most 16 bits the multiplier drops out: the bucket is the plain sum of the reads. */
  lemma SmallTableBucket(key: seq<byte>, bits: nat)
    requires bits <= 16
    ensures BucketOf(key, bits) == Hash.LowSum(key) % Pow2(bits) == Hash.ChunkSum(key) % Pow2(bits)
  {
    hide Hash.LowSum, Hash.HighSum, Hash.ChunkSum, Hash.Hash32Str, Pow2;
    var m, low := Pow2(bits), Hash.LowSum(key);
    Hash.Hash32StrClosedForm(key);
    Hash.ChunkSumPositional(key);
    PowersFactor(bits);
    ModOfMod(Hash.GOLDEN_RATIO_PRIME_32 * low, m, Pow2(32 - bits));
    DropMultiple(low, 0x9e37 * low, Pow2(16 - bits), m);
    DropMultiple(low, Hash.HighSum(key), Pow2(32 - bits), m);
  }

  lemma PowersFactor(bits: nat)
    requires bits <= 16
    ensures Pow2(bits) * Pow2(16 - bits) == 0x1_0000 && Pow2(bits) * Pow2(32 - bits) == TWO_TO_THE_32
  {
    Pow2Values();
    Pow2Add(bits, 16 - bits);
    Pow2Add(bits, 32 - bits);
  }

  lemma DropMultiple(x: nat, c: nat, k: nat, m: nat)
    requires m > 0
    ensures (x + c * (m * k)) % m == x % m
  {
    assert x + c * (m * k) == (x / m + c * k) * m + x % m;
    DivModUnique(x + c * (m * k), m, x / m + c * k, x % m);
  }

  /** No node is in two chains. */
  ghost predicate Separate(chains: seq<seq<HlistNode>>) {
    forall b, c, i, j ::
      0 <= b < |chains| && 0 <= c < |chains| && b != c && 0 <= i < |chains[b]| && 0 <= j < |chains[c]|
      ==> chains[b][i] != chains[c][j]
  }

  lemma SeparateAfterAdd(chains: seq<seq<HlistNode>>, b: nat, k: nat, node: HlistNode)
    requires Separate(chains) && b < |chains| && k <= |chains[b]|
    requires forall c, i :: 0 <= c < |chains| && 0 <= i < |chains[c]| ==> chains[c][i] != node
    ensures Separate(chains[b := InsertAt(chains[b], k, node)])
    ensures forall x :: x in InsertAt(chains[b], k, node) ==> x == node || x in chains[b]
  {
    var longer := InsertAt(chains[b], k, node);
    forall i | 0 <= i < |longer|
      ensures longer[i] == node || longer[i] in chains[b]
    {
      assert i != k ==> longer[i] == chains[b][if i < k then i else i - 1];
    }
  }

  lemma SeparateAfterDel(chains: seq<seq<HlistNode>>, b: nat, k: nat)
    requires Separate(chains) && b < |chains| && k < |chains[b]|
    ensures Separate(chains[b := RemoveAt(chains[b], k)])
  {
    var shorter := RemoveAt(chains[b], k);
    forall i | 0 <= i < |shorter|
      ensures shorter[i] in chains[b]
    {
      assert shorter[i] == chains[b][if i < k then i else i + 1];
    }
  }

  /** `hashtable_t`: the bucket heads, with the chain each of them holds. */
  class HashTable {
    const bits: nat
    const table: seq<HlistHead>
    ghost var chains: seq<seq<HlistNode>>
    ghost var Repr: set<object>

    ghost function Nodes(): set<HlistNode>
      reads this
    {
      set b, i | 0 <= b < |chains| && 0 <= i < |chains[b]| :: chains[b][i]
    }

    ghost predicate Valid()
      reads this, Repr
    {
      && this in Repr && (forall h :: h in table ==> h in Repr)
      && (forall b, i :: 0 <= b < |chains| && 0 <= i < |chains[b]| ==> chains[b][i] in Repr)
      && bits <= MAX_BITS
      && |table| == |chains| == Pow2(bits)
      && Distinct(table)
      && (forall b :: 0 <= b < |chains| ==> Chain(table[b], chains[b]))
      && Separate(chains)
    }

    lemma ReprContents()
      requires Valid()
      ensures Nodes() <= Repr && forall h :: h in table ==> h in Repr
      ensures |table| == |chains| && forall b :: 0 <= b < |table| ==> table[b].first == NodeAt(chains[b], 0)
    {
    }

    lemma FirstNode(b: nat)
      requires Valid() && b < |chains| && chains[b] != []
      ensures chains[b][0] in Repr && chains[b][0].next == NodeAt(chains[b], 1)
      ensures !HlistUnhashed(chains[b][0])
    {
      SlotNotNull(table[b], chains[b], 0);
    }

    lemma TableSize()
      requires Valid()
      ensures |chains| == |table| == Pow2(bits)
    {
    }

    /** `ht_create` once its two allocations have succeeded; every bucket starts empty. */
    constructor (bits: nat)
      requires bits <= MAX_BITS
      ensures Valid() && this.bits == bits
      ensures fresh(Repr)
      ensures forall b :: 0 <= b < |chains| ==> chains[b] == []
    {
      this.bits := bits;
      var heads: seq<HlistHead> := [];
      while |heads| < Pow2(bits)
        invariant |heads| <= Pow2(bits)
        invariant Distinct(heads) && fresh(set h | h in heads)
        invariant forall b :: 0 <= b < |heads| ==> heads[b].first == null
      {
        var head := new HlistHead();
        heads := heads + [head];
      }
      table := heads;
      chains := seq(|heads|, _ => []);
      new;
      ghost var owned: set<object> := set h | h in table;
      Repr := owned + {this};
    }

    /** `hash_add_bits`: the node goes to the front of its key's bucket. */
    method Add(node: HlistNode, key: int)
      requires Valid() && node !in Repr
      modifies this`chains, this`Repr, (set h | h in table)`first, node`next, node`pprev, Nodes()`pprev
      ensures Valid() && Repr == old(Repr) + {node}
      ensures var b := CalcBkt(ToU32(key), Pow2(bits));
              b < |old(chains)| && chains == old(chains)[b := [node] + old(chains)[b]]
    {
      var bkt := CalcBkt(ToU32(key), Pow2(bits));
      CalcBktIsRemainder(ToU32(key), bits);
      SeparateAfterAdd(chains, bkt, 0, node);
      assert InsertAt(chains[bkt], 0, node) == [node] + chains[bkt];
      HlistAddHead(node, table[bkt], chains[bkt]);
      chains := chains[bkt := [node] + chains[bkt]];
      Repr := Repr + {node};
    }

    /** `hlist_add_before` a node of this table: its chain gains the node there, no other chain changes. */
    method AddBefore(node: HlistNode, next: HlistNode, ghost b: nat, ghost k: nat)
      requires Valid() && node !in Repr && b < |chains| && k < |chains[b]| && chains[b][k] == next
      modifies this`chains, this`Repr, (set h | h in table)`first, node`next, node`pprev
      modifies Nodes()`next, Nodes()`pprev
      ensures Valid() && Repr == old(Repr) + {node}
      ensures chains == old(chains)[b := InsertAt(old(chains)[b], k, node)]
    {
      SeparateAfterAdd(chains, b, k, node);
      HlistAddBefore(node, next, table[b], chains[b], k);
      chains := chains[b := InsertAt(chains[b], k, node)];
      Repr := Repr + {node};
    }

    /** `hlist_add_behind` a node of this table. */
    method AddBehind(node: HlistNode, prev: HlistNode, ghost b: nat, ghost k: nat)
      requires Valid() && node !in Repr && b < |chains| && k < |chains[b]| && chains[b][k] == prev
      modifies this`chains, this`Repr, node`next, node`pprev, Nodes()`next, Nodes()`pprev
      ensures Valid() && Repr == old(Repr) + {node}
      ensures chains == old(chains)[b := InsertAt(old(chains)[b], k + 1, node)]
    {
      SeparateAfterAdd(chains, b, k + 1, node);
      HlistAddBehind(node, prev, table[b], chains[b], k);
      chains := chains[b := InsertAt(chains[b], k + 1, node)];
      Repr := Repr + {node};
    }

    /** `hlist_move_list` between two buckets: the target loses what it held, no other chain changes. */
    method MoveList(source: nat, target: nat)
      requires Valid() && source < |table| && target < |table|
      modifies this`chains, (set h | h in table)`first, Nodes()`pprev
      ensures Valid() && |old(chains)| == |table|
      ensures chains == old(chains)[target := old(chains)[source]][source := []]
    {
      HlistMoveList(table[source], table[target], chains[source], chains[target]);
      chains := chains[target := chains[source]][source := []];
    }

    /** `hlist_del` on a node of this table: exactly one chain loses it. */
    method Del(node: HlistNode, ghost b: nat, ghost k: nat)
      requires Valid() && b < |chains| && k < |chains[b]| && chains[b][k] == node
      modifies this`chains, this`Repr, (set h | h in table)`first, Nodes()`next, Nodes()`pprev
      ensures Valid() && Repr == old(Repr) - {node}
      ensures chains == old(chains)[b := RemoveAt(old(chains)[b], k)]
      ensures node.next == null && node.pprev == Poison
    {
      SeparateAfterDel(chains, b, k);
      HlistDel(node, table[b], chains[b], k);
      chains := chains[b := RemoveAt(chains[b], k)];
      Repr := Repr - {node};
    }

    /** `hash_del`: a node of this table leaves its chain and is reset; an unhashed node is left alone. */
    method DelInit(node: HlistNode, ghost b: nat, ghost k: nat)
      requires Valid()
      requires HlistUnhashed(node) || (b < |chains| && k < |chains[b]| && chains[b][k] == node)
      modifies this`chains, this`Repr, (set h | h in table)`first, Nodes()`next, Nodes()`pprev
      ensures Valid() && HlistUnhashed(node)
      ensures old(HlistUnhashed(node)) ==>
                chains == old(chains) && Repr == old(Repr) && node.next == old(node.next)
      ensures !old(HlistUnhashed(node)) ==>
                && Repr == old(Repr) - {node} && node.next == null
                && chains == old(chains)[b := RemoveAt(old(chains)[b], k)]
    {
      if HlistUnhashed(node) {
        HlistDelInit(node, table[0], chains[0], 0);
        return;
      }
      SeparateAfterDel(chains, b, k);
      HlistDelInit(node, table[b], chains[b], k);
      chains := chains[b := RemoveAt(chains[b], k)];
      Repr := Repr - {node};
    }
  }
}
