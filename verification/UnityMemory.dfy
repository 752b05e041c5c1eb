/**
 unity_memory.c with UNITY_EXCLUDE_STDLIB_MALLOC: the guarded bump allocator itself, over the bytes
 of its heap. A pointer is an offset into the heap. UNITY_TEST_FAIL leaves the operation, so it is
 a result here.
 */
module UnityMemory {
  import opened Words
  import opened UnityMemorySpec

  /** `h` with `s` written at `at`. */
  function Spliced(h: seq<byte>, at: nat, s: seq<byte>): (r: seq<byte>)
    requires at + |s| <= |h|
    ensures |r| == |h|
    ensures forall k :: 0 <= k < |h| ==> r[k] == if at <= k < at + |s| then s[k - at] else h[k]
  {
    h[..at] + s + h[at + |s|..]
  }

  /** The guard record and the end marker of a block of `size` bytes whose guard is at `base`. */
  function Stamped(h: seq<byte>, base: nat, size: u64): (r: seq<byte>)
    requires base + Extent(size) <= |h|
    ensures |r| == |h|
  {
    var guarded := Spliced(Spliced(h, base, Bytes64(size)), base + 8, Bytes64(0));
    Spliced(guarded, base + GUARD_SIZE + size, END)
  }

  function Zeros(n: nat): (s: seq<byte>)
    ensures |s| == n && forall k :: 0 <= k < n ==> s[k] == 0
  {
    seq(n, _ => 0)
  }

  /** The guard's size field says what the block's size is. */
  ghost predicate SizeKept(h: seq<byte>, b: Block) {
    b.Limit() <= |h| && Le64(h, b.base) == b.size
  }

  /** Neither the guard space nor the end marker has been written over. */
  predicate Intact(h: seq<byte>, b: Block)
    requires b.Limit() <= |h|
  {
    Le64(h, b.base + 8) == 0 && h[b.Data() + b.size..b.Data() + b.size + 4] == END
  }

  lemma Le64Local(h: seq<byte>, h': seq<byte>, i: nat)
    requires i + 8 <= |h| && i + 8 <= |h'| && h[i..i + 8] == h'[i..i + 8]
    ensures Le64(h, i) == Le64(h', i)
  {
    var w := h[i..i + 8];
    assert forall k :: 0 <= k < 8 ==> h[i + k] == w[k] && h'[i + k] == w[k];
  }

  lemma Le64Written(h: seq<byte>, at: nat, w: u64)
    requires at + 8 <= |h|
    ensures Le64(Spliced(h, at, Bytes64(w)), at) == w
  {
    var r := Spliced(h, at, Bytes64(w));
    Le64Bytes64(w);
    assert forall k :: 0 <= k < 8 ==> r[at + k] == Bytes64(w)[k];
  }

  lemma StampedBytes(h: seq<byte>, base: nat, size: u64)
    requires base + Extent(size) <= |h|
    ensures var r, data := Stamped(h, base, size), base + GUARD_SIZE;
            forall k :: 0 <= k < |h| && !(base <= k < data) && !(data + size <= k < data + size + 4) ==> r[k] == h[k]
  {
  }

  /** A freshly stamped block records its size and is intact. */
  lemma StampedIntact(h: seq<byte>, base: nat, size: u64)
    requires base + Extent(size) <= |h|
    ensures var r, b := Stamped(h, base, size), Block(base, size, true);
            SizeKept(r, b) && Intact(r, b)
  {
    var one := Spliced(h, base, Bytes64(size));
    var two := Spliced(one, base + 8, Bytes64(0));
    var r := Stamped(h, base, size);
    Le64Written(h, base, size);
    Le64Written(one, base + 8, 0);
    assert one[base..base + 8] == two[base..base + 8] == r[base..base + 8];
    assert two[base + 8..base + 16] == r[base + 8..base + 16];
    Le64Local(one, two, base);
    Le64Local(two, r, base);
    Le64Local(two, r, base + 8);
    assert r[base + GUARD_SIZE + size..base + GUARD_SIZE + size + 4] == END;
  }

  /** Bytes written inside a block's data leave its markers alone. */
  lemma DataWriteKeepsIntact(h: seq<byte>, b: Block, at: nat, s: seq<byte>)
    requires b.Limit() <= |h| && Intact(h, b) && b.Data() <= at && at + |s| <= b.Data() + b.size
    ensures Intact(Spliced(h, at, s), b)
  {
    ExtentPositive(b.size);
    hide Extent;
    var r := Spliced(h, at, s);
    assert h[b.base + 8..b.base + 16] == r[b.base + 8..b.base + 16];
    Le64Local(h, r, b.base + 8);
    assert r[b.Data() + b.size..b.Data() + b.size + 4] == h[b.Data() + b.size..b.Data() + b.size + 4];
  }

  /** The guards of the blocks in use agree with the blocks. */
  ghost predicate SizesKept(h: seq<byte>, blocks: seq<Block>) {
    forall b :: b in blocks && b.live ==> SizeKept(h, b)
  }

  /** Stamping above a block leaves its size field alone. */
  lemma StampKeepsSize(h: seq<byte>, base: nat, size: u64, b: Block)
    requires base + Extent(size) <= |h| && SizeKept(h, b) && b.Limit() <= base
    ensures SizeKept(Stamped(h, base, size), b)
  {
    var r := Stamped(h, base, size);
    StampedBytes(h, base, size);
    assert h[b.base..b.base + 8] == r[b.base..b.base + 8];
    Le64Local(h, r, b.base);
  }

  lemma StampKeepsSizes(h: seq<byte>, blocks: seq<Block>, size: u64)
    requires Tiled(blocks) && SizesKept(h, blocks) && Top(blocks) + Extent(size) <= |h|
    ensures SizesKept(Stamped(h, Top(blocks), size), blocks + [Block(Top(blocks), size, true)])
  {
    hide Extent, Stamped, SizeKept;
    var base := Top(blocks);
    StampedIntact(h, base, size);
    forall b | b in blocks && b.live
      ensures SizeKept(Stamped(h, base, size), b)
    {
      var i :| 0 <= i < |blocks| && blocks[i] == b;
      TiledLayout(blocks, i);
      StampKeepsSize(h, base, size, b);
    }
  }

  lemma ReleaseKeepsSizes(h: seq<byte>, blocks: seq<Block>, i: nat)
    requires SizesKept(h, blocks) && i < |blocks|
    ensures SizesKept(h, blocks[..i]) && SizesKept(h, blocks[i := blocks[i].(live := false)])
  {
  }

  /** Writing inside the data and end marker of one block leaves every size field alone. */
  lemma DataWriteKeepsSizes(h: seq<byte>, blocks: seq<Block>, i: nat, at: nat, s: seq<byte>)
    requires Tiled(blocks) && SizesKept(h, blocks) && i < |blocks| && blocks[i].Limit() <= |h|
    requires blocks[i].Data() <= at && at + |s| <= blocks[i].Limit()
    ensures SizesKept(Spliced(h, at, s), blocks)
  {
    TiledLayout(blocks, i);
    hide Extent;
    var r := Spliced(h, at, s);
    forall b | b in blocks && b.live
      ensures SizeKept(r, b)
    {
      var j :| 0 <= j < |blocks| && blocks[j] == b;
      ExtentPositive(b.size);
      assert h[b.base..b.base + 8] == r[b.base..b.base + 8];
      Le64Local(h, r, b.base);
    }
  }

  /** The heap after an allocation that returned `p`: guard and end marker of the new block are written. */
  ghost predicate Allocated(h: seq<byte>, h': seq<byte>, base: nat, size: u64, p: Pointer) {
    if p.Null? then h' == h else base + Extent(size) <= |h| && h' == Stamped(h, base, size)
  }

  /**
   The heap after a reallocation of `b` that returned `p`: as it was, or guard and end marker are
   written at the new place and, unless the block grew where it stood, its bytes are copied there.
  */
  ghost predicate Rewritten(h: seq<byte>, h': seq<byte>, b: Block, size: u64, p: Pointer) {
    if p.Null? || size <= b.size then h' == h
    else
      && GUARD_SIZE <= p.offset && p.offset - GUARD_SIZE + Extent(size) <= |h| && b.Limit() <= |h|
      && var stamped := Stamped(h, p.offset - GUARD_SIZE, size);
         h' == if p.offset == b.Data() then stamped
               else Spliced(stamped, p.offset, h[b.Data()..b.Data() + b.size])
  }

  /** The first `n` bytes at `from` are now the first `n` bytes at `to`. */
  ghost predicate Carried(h: seq<byte>, h': seq<byte>, from: nat, to: nat, n: nat) {
    from + n <= |h| && to + n <= |h'| && h'[to..to + n] == h[from..from + n]
  }

  /** Blocks other than `i` have the bytes they had, guards and end markers included. */
  ghost predicate OthersKept(h: seq<byte>, h': seq<byte>, blocks: seq<Block>, i: nat) {
    forall j :: 0 <= j < |blocks| && j != i ==> Carried(h, h', blocks[j].base, blocks[j].base, Extent(blocks[j].size))
  }

  /** An intact block of this size has its data at `data`. */
  ghost predicate Marked(h: seq<byte>, data: nat, size: nat) {
    GUARD_SIZE <= data && data - GUARD_SIZE + Extent(size) <= |h| && Intact(h, Block(data - GUARD_SIZE, size, true))
  }

  /**
   What a client may rely on: the result is an intact block that holds the old bytes that fit, and
   every other block has the bytes it had; with no result nothing at all is written.
  */
  ghost predicate Preserved(h: seq<byte>, h': seq<byte>, blocks: seq<Block>, i: nat, size: nat, p: Pointer)
    requires i < |blocks|
  {
    var b := blocks[i];
    && |h| == |h'|
    && (p.Null? ==> h' == h)
    && (p.At? ==> Carried(h, h', b.Data(), p.offset, if b.size <= size then b.size else size))
    && (p.At? ==> Marked(h', p.offset, if b.size <= size then size else b.size))
    && OthersKept(h, h', blocks, i)
  }

  lemma NothingRewritten(h: seq<byte>, b: Block, size: u64)
    ensures Rewritten(h, h, b, size, Null)
  {
  }

  lemma GrownRewrites(h: seq<byte>, b: Block, size: u64)
    requires b.size < size && b.Limit() <= |h| && b.base + Extent(size) <= |h|
    ensures Rewritten(h, Stamped(h, b.base, size), b, size, At(b.Data()))
  {
    hide Stamped;
  }

  lemma StampedBelow(h: seq<byte>, base: nat, size: u64)
    requires base + Extent(size) <= |h|
    ensures forall k :: 0 <= k < base ==> Stamped(h, base, size)[k] == h[k]
  {
  }

  lemma MovedRewrites(h: seq<byte>, b: Block, base: nat, size: u64)
    requires b.size < size && b.Limit() <= base && base + Extent(size) <= |h|
    ensures b.Data() + b.size <= |h| && base + GUARD_SIZE + b.size <= |h|
    ensures Rewritten(h, Spliced(Stamped(h, base, size), base + GUARD_SIZE, h[b.Data()..b.Data() + b.size]),
                      b, size, At(base + GUARD_SIZE))
  {
    hide Stamped, Spliced;
  }

  lemma SliceKept(h: seq<byte>, h': seq<byte>, lo: nat, hi: nat)
    requires lo <= hi <= |h| == |h'| && forall k :: lo <= k < hi ==> h'[k] == h[k]
    ensures h'[lo..hi] == h[lo..hi]
  {
  }

  lemma CopyRewrites(h: seq<byte>, data: seq<byte>, h': seq<byte>, b: Block, base: nat, size: u64)
    requires b.size < size && b.Limit() <= base && base + Extent(size) <= |h|
    requires b.Data() + b.size <= |h| && base + GUARD_SIZE + |data| <= |h|
    requires data == Stamped(h, base, size)[b.Data()..b.Data() + b.size]
    requires h' == Spliced(Stamped(h, base, size), base + GUARD_SIZE, data)
    ensures Rewritten(h, h', b, size, At(base + GUARD_SIZE))
  {
    ExtentPositive(b.size);
    hide Stamped, Spliced, Rewritten, Extent;
    assert data == h[b.Data()..b.Data() + b.size] by {
      StampedBelow(h, base, size);
      SliceKept(h, Stamped(h, base, size), b.Data(), b.Data() + b.size);
    }
    MovedRewrites(h, b, base, size);
  }

  lemma LargerPreserved(h: seq<byte>, h': seq<byte>, blocks: seq<Block>, i: nat, size: u64, data: nat)
    requires i < |blocks| && blocks[i].size < size && |h'| == |h| && OthersKept(h, h', blocks, i)
    requires Carried(h, h', blocks[i].Data(), data, blocks[i].size) && Marked(h', data, size)
    ensures Preserved(h, h', blocks, i, size, At(data))
  {
    hide Carried, Marked, OthersKept;
  }

  lemma CarriedBelow(h: seq<byte>, h': seq<byte>, from: nat, n: nat, base: nat)
    requires from + n <= base <= |h| == |h'| && forall k :: 0 <= k < base ==> h'[k] == h[k]
    ensures Carried(h, h', from, from, n)
  {
  }

  /** A write at or above `base` is no concern of the blocks below it. */
  lemma BlocksBelowKept(h: seq<byte>, h': seq<byte>, blocks: seq<Block>, n: nat, base: nat)
    requires Tiled(blocks) && n <= |blocks| && base == FloorOf(blocks, n) <= |h| == |h'|
    requires forall k :: 0 <= k < base ==> h'[k] == h[k]
    ensures forall j :: 0 <= j < n ==> Carried(h, h', blocks[j].base, blocks[j].base, Extent(blocks[j].size))
  {
    hide Extent, Carried;
    forall j | 0 <= j < n
      ensures Carried(h, h', blocks[j].base, blocks[j].base, Extent(blocks[j].size))
    {
      if j < n - 1 {
        TiledApart(blocks, j, n - 1);
        ExtentPositive(blocks[n - 1].size);
      }
      CarriedBelow(h, h', blocks[j].base, Extent(blocks[j].size), base);
    }
  }

  lemma UnchangedHeap(h: seq<byte>, h': seq<byte>, b: Block, size: u64, p: Pointer)
    requires Rewritten(h, h', b, size, p) && (p.Null? || size <= b.size)
    ensures h' == h
  {
  }

  lemma UnchangedPreserves(h: seq<byte>, blocks: seq<Block>, i: nat, size: nat, p: Pointer)
    requires Tiled(blocks) && i < |blocks| && Top(blocks) <= |h|
    requires p.At? ==> && p == At(blocks[i].Data()) && size <= blocks[i].size
                       && blocks[i].Limit() <= |h| && Intact(h, blocks[i])
    ensures Preserved(h, h, blocks, i, size, p)
  {
    BlocksBelowKept(h, h, blocks, |blocks|, Top(blocks));
    ExtentPositive(blocks[i].size);
    hide Extent, Tiled;
  }

  lemma GrownPreserves(h: seq<byte>, h': seq<byte>, blocks: seq<Block>, i: nat, size: u64)
    requires Tiled(blocks) && i == |blocks| - 1 && blocks[i].size < size && blocks[i].base + Extent(size) <= |h|
    requires Rewritten(h, h', blocks[i], size, At(blocks[i].Data()))
    ensures Preserved(h, h', blocks, i, size, At(blocks[i].Data()))
  {
    var b := blocks[i];
    StampedAround(h, b, size);
    hide Extent, Stamped, Intact, Spliced;
    assert b.base == FloorOf(blocks, i);
    BlocksBelowKept(h, h', blocks, i, b.base);
    hide Tiled;
  }

  /** A stamp for a larger size in place leaves the block's data and everything below alone. */
  lemma StampedAround(h: seq<byte>, b: Block, size: u64)
    requires b.size < size && b.base + Extent(size) <= |h|
    ensures var h' := Stamped(h, b.base, size);
            && Carried(h, h', b.Data(), b.Data(), b.size) && Marked(h', b.Data(), size)
            && forall k :: 0 <= k < b.base ==> h'[k] == h[k]
  {
    var h' := Stamped(h, b.base, size);
    ExtentPositive(size);
    hide Extent, Stamped, Intact;
    assert Carried(h, h', b.Data(), b.Data(), b.size) by {
      StampedBytes(h, b.base, size);
      SliceKept(h, h', b.Data(), b.Data() + b.size);
    }
    assert Marked(h', b.Data(), size) by {
      StampedIntact(h, b.base, size);
    }
    StampedBytes(h, b.base, size);
  }

  lemma MovedHeap(h: seq<byte>, h': seq<byte>, b: Block, base: nat, size: u64)
    requires b.size < size && b.Limit() <= base && base + Extent(size) <= |h|
    requires Rewritten(h, h', b, size, At(base + GUARD_SIZE))
    ensures b.Data() + b.size <= |h| && base + GUARD_SIZE + b.size <= |h|
    ensures h' == Spliced(Stamped(h, base, size), base + GUARD_SIZE, h[b.Data()..b.Data() + b.size])
  {
    hide Stamped, Spliced;
  }

  lemma MovedBytes(h: seq<byte>, h': seq<byte>, data: seq<byte>, base: nat, size: u64)
    requires base + Extent(size) <= |h| && |data| < size
    requires h' == Spliced(Stamped(h, base, size), base + GUARD_SIZE, data)
    ensures Marked(h', base + GUARD_SIZE, size) && h'[base + GUARD_SIZE..base + GUARD_SIZE + |data|] == data
    ensures forall k :: 0 <= k < base ==> h'[k] == h[k]
  {
    ExtentPositive(size);
    StampedBelow(h, base, size);
    StampedIntact(h, base, size);
    hide Extent, Stamped, Intact, Spliced;
    DataWriteKeepsIntact(Stamped(h, base, size), Block(base, size, true), base + GUARD_SIZE, data);
  }

  lemma MovedParts(h: seq<byte>, h': seq<byte>, b: Block, base: nat, size: u64)
    requires b.size < size && b.Limit() <= base && base + Extent(size) <= |h|
    requires Rewritten(h, h', b, size, At(base + GUARD_SIZE))
    ensures Carried(h, h', b.Data(), base + GUARD_SIZE, b.size) && Marked(h', base + GUARD_SIZE, size)
    ensures |h'| == |h| && forall k :: 0 <= k < base ==> h'[k] == h[k]
  {
    hide Extent, Stamped, Spliced, Rewritten, Marked;
    MovedHeap(h, h', b, base, size);
    MovedBytes(h, h', h[b.Data()..b.Data() + b.size], base, size);
  }

  lemma MovedPreserves(h: seq<byte>, h': seq<byte>, blocks: seq<Block>, i: nat, size: u64)
    requires Tiled(blocks) && i < |blocks| && blocks[i].size < size && Top(blocks) + Extent(size) <= |h|
    requires Rewritten(h, h', blocks[i], size, At(Top(blocks) + GUARD_SIZE))
    ensures Preserved(h, h', blocks, i, size, At(Top(blocks) + GUARD_SIZE))
  {
    hide Extent, Rewritten, Marked, Carried, Tiled, OthersKept, Preserved, Top;
    assert blocks[i].Limit() <= Top(blocks) by {
      TiledLayout(blocks, i);
    }
    MovedParts(h, h', blocks[i], Top(blocks), size);
    MovedOthers(h, h', blocks, i);
    LargerPreserved(h, h', blocks, i, size, Top(blocks) + GUARD_SIZE);
  }

  lemma MovedOthers(h: seq<byte>, h': seq<byte>, blocks: seq<Block>, i: nat)
    requires Tiled(blocks) && Top(blocks) <= |h| == |h'| && forall k :: 0 <= k < Top(blocks) ==> h'[k] == h[k]
    ensures OthersKept(h, h', blocks, i)
  {
    hide Extent, Carried;
    BlocksBelowKept(h, h', blocks, |blocks|, Top(blocks));
  }

  /** Wherever the result lies, the rewritten heap keeps what the client relies on. */
  lemma RewrittenPreserves(h: seq<byte>, h': seq<byte>, blocks: seq<Block>, i: nat, size: u64, p: Pointer)
    requires Tiled(blocks) && i < |blocks| && Top(blocks) <= |h| && blocks[i].Limit() <= |h|
    requires Intact(h, blocks[i]) && LandsAt(blocks, |h|, i, size, p) && Rewritten(h, h', blocks[i], size, p)
    ensures Preserved(h, h', blocks, i, size, p)
  {
    hide Preserved, Extent, Intact, Top, Rewritten, Tiled;
    if p.Null? || size <= blocks[i].size {
      UnchangedHeap(h, h', blocks[i], size, p);
      UnchangedPreserves(h, blocks, i, size, p);
    } else if p == At(blocks[i].Data()) && i == |blocks| - 1 && Fits(blocks[i].base, size, |h|) {
      GrownPreserves(h, h', blocks, i, size);
    } else {
      MovedPreserves(h, h', blocks, i, size);
    }
  }

  // `Wrapped`: a size computation has wrapped around, and the code goes on to write outside its block.
  datatype Outcome = Returned(mem: Pointer) | TestFailed | Wrapped

  class UnityHeap {
    const capacity: nat
    const heap: array<byte>
    var heapIndex: nat
    var mallocCount: int
    var countdown: int
    ghost var blocks: seq<Block>
    ghost var outside: int

    ghost function State(): Arena
      reads this
    {
      Arena(blocks, mallocCount, countdown)
    }

    ghost predicate Valid()
      reads this, heap
    {
      && heap.Length == capacity < TWO_TO_THE_64 / 2
      && Inv(State(), capacity, outside)
      && heapIndex == Top(blocks)
      && SizesKept(heap[..], blocks)
    }

    /** `mem` is the address of block `i`, which is in use. */
    ghost predicate InUse(mem: Pointer, i: nat)
      reads this
    {
      i < |blocks| && blocks[i].live && mem == At(blocks[i].Data())
    }

    /** The static state at program start. */
    constructor (capacity: nat)
      requires capacity < TWO_TO_THE_64 / 2
      ensures Valid() && fresh(heap) && State() == Arena([], 0, MALLOC_DONT_FAIL) && this.capacity == capacity
    {
      this.capacity := capacity;
      heap := new byte[capacity](_ => 0);
      heapIndex, mallocCount, countdown := 0, 0, MALLOC_DONT_FAIL;
      blocks, outside := [], 0;
    }

    method Put(at: nat, s: seq<byte>)
      requires at + |s| <= heap.Length
      modifies heap
      ensures heap[..] == Spliced(old(heap[..]), at, s)
    {
      for k := 0 to |s|
        invariant forall j :: 0 <= j < heap.Length ==>
                    heap[j] == if at <= j < at + k then s[j - at] else old(heap[j])
      {
        heap[at + k] := s[k];
      }
    }

    method ReadWord(at: nat) returns (w: u64)
      requires at + 8 <= heap.Length
      ensures w == Le64(heap[..], at)
    {
      var bytes := heap[..];
      w := Le64(bytes, at);
    }

    /**
     `unity_malloc`. The test lets a request that wraps around into the heap pass, and then the block
     lies outside: `wraps` says exactly when, and nothing is said of the heap from there on.
    */
    method Malloc(size: u64) returns (mem: Pointer, wraps: bool)
      requires Valid()
      modifies this`heapIndex, this`mallocCount, this`countdown, this`blocks, heap
      ensures wraps <==> MallocWraps(old(State()), capacity, size)
      ensures !wraps ==> Valid() && (State(), mem) == MallocStep(old(State()), capacity, size)
      ensures !wraps ==> Allocated(old(heap[..]), heap[..], old(heapIndex), size, mem)
      ensures !wraps ==> MallocLaw(old(State()), capacity, size, State(), mem)
    {
      MallocObserved(State(), capacity, size);
      WrapCases(State(), capacity, size);
      hide MallocLaw, Inv, SizesKept, Stamped, Top, TotalSize, MallocWraps, Accepts, Fits, RoomFor, Extent;
      var totalSize := TotalSize(size);
      if countdown != MALLOC_DONT_FAIL {
        if countdown == 0 {
          return Null, false;
        }
        countdown := countdown - 1;
      }
      if size == 0 {
        return Null, false;
      }
      if !RoomFor(size, totalSize) {
        return Null, false;
      }
      if !Fits(heapIndex, size, capacity) {
        // What follows would write outside the block; it is not followed further.
        return Null, true;
      }
      mem := Carve(size, totalSize);
      wraps := false;
    }

    /** The bound test of `unity_malloc`. */
    predicate RoomFor(size: u64, totalSize: u64)
      requires totalSize == TotalSize(size)
      reads this
      ensures RoomFor(size, totalSize) <==> Accepts(heapIndex, size, capacity)
    {
      (heapIndex + totalSize) % TWO_TO_THE_64 <= capacity
    }

    /** The successful end of `unity_malloc`: move the top, count, write the guard and the end marker. */
    method Carve(size: u64, totalSize: u64) returns (mem: Pointer)
      requires Valid() && Fits(heapIndex, size, capacity) && totalSize == Extent(size)
      modifies this`heapIndex, this`mallocCount, this`blocks, heap
      ensures Valid() && mem == At(old(heapIndex) + GUARD_SIZE)
      ensures blocks == old(blocks) + [Block(old(heapIndex), size, true)] && mallocCount == old(mallocCount) + 1
      ensures heap[..] == Stamped(old(heap[..]), old(heapIndex), size)
    {
      StampKeepsSizes(heap[..], blocks, size);
      TiledAppend(blocks, Block(heapIndex, size, true));
      LiveAppend(blocks, Block(heapIndex, size, true));
      hide Stamped, SizesKept, Tiled, Top, Live;
      var guard := heapIndex;
      heapIndex := heapIndex + totalSize;
      mallocCount := mallocCount + 1;
      Stamp(guard, size);
      blocks := blocks + [Block(guard, size, true)];
      return At(guard + GUARD_SIZE);
    }

    method Stamp(guard: nat, size: u64)
      requires guard + Extent(size) <= heap.Length
      modifies heap
      ensures heap[..] == Stamped(old(heap[..]), guard, size)
    {
      Put(guard, Bytes64(size));
      Put(guard + 8, Bytes64(0));
      Put(guard + GUARD_SIZE + size, END);
    }

    /** `isOverrun`: the guard space first, then `strcmp` of the end marker. */
    method IsOverrun(mem: nat, ghost i: nat) returns (overrun: bool)
      requires Valid() && InUse(At(mem), i)
      ensures overrun <==> !Intact(heap[..], blocks[i])
    {
      BlockInHeap(i);
      var guardSpace := ReadWord(mem - 8);
      if guardSpace != 0 {
        return true;
      }
      var size := ReadWord(mem - 16);
      overrun := EndDiffers(mem + size);
    }

    /** `strcmp(&heap[at], "END") != 0`: it stops at a difference or behind the common NUL. */
    method EndDiffers(at: nat) returns (differs: bool)
      requires at + 4 <= heap.Length
      ensures differs <==> heap[at..at + 4] != END
    {
      var k := 0;
      while heap[at + k] == END[k] && END[k] != 0
        invariant 0 <= k < 4 && forall j :: 0 <= j < k ==> heap[at + j] == END[j]
        decreases 4 - k
      {
        k := k + 1;
      }
      differs := heap[at + k] != END[k];
      if differs {
        assert heap[at..at + 4][k] != END[k];
      }
    }

    lemma BlockInHeap(i: nat)
      requires Valid() && i < |blocks|
      ensures Tiled(blocks) && Top(blocks) == heapIndex
      ensures blocks[i].Limit() <= heapIndex <= heap.Length
      ensures blocks[i].live ==> SizeKept(heap[..], blocks[i])
      ensures RoundUp(blocks[i].size + 4) == Extent(blocks[i].size) - 16
      ensures blocks[i].Data() == heapIndex - RoundUp(blocks[i].size + 4) <==> i == |blocks| - 1
    {
      TiledLayout(blocks, i);
    }

    /** `release_memory`: only the block that ends at the top of the heap is given back. */
    method ReleaseMemory(mem: nat, ghost i: nat)
      requires Valid() && InUse(At(mem), i)
      modifies this`heapIndex, this`mallocCount, this`blocks
      ensures Valid() && State() == ReleaseStep(old(State()), i)
      ensures heapIndex == if i == |old(blocks)| - 1 then old(blocks)[i].base else old(heapIndex)
      ensures mallocCount == old(mallocCount) - 1 && !(i < |blocks| && blocks[i].live)
    {
      BlockInHeap(i);
      ReleaseKeepsInv(State(), capacity, i, outside);
      ReleaseKeepsSizes(heap[..], blocks, i);
      hide Inv, SizesKept, Top;
      var size := ReadWord(mem - 16);
      mallocCount := mallocCount - 1;
      var blockSize := RoundUp(size + 4);
      if mem == heapIndex - blockSize {
        heapIndex := heapIndex - (GUARD_SIZE + blockSize);
      }
      blocks := if i == |blocks| - 1 then blocks[..i] else blocks[i := blocks[i].(live := false)];
    }

    /** `unity_free`: the block is released whether or not it was overrun; an overrun fails the test. */
    method Free(mem: Pointer, ghost i: nat) returns (failed: bool)
      requires Valid() && (mem.At? ==> InUse(mem, i))
      modifies this`heapIndex, this`mallocCount, this`blocks
      ensures Valid()
      ensures mem.Null? ==> State() == old(State()) && !failed
      ensures mem.At? ==> State() == ReleaseStep(old(State()), i)
                          && old(blocks)[i].Limit() <= heap.Length
                          && (failed <==> !Intact(old(heap[..]), old(blocks)[i]))
      ensures mem.At? ==> && mallocCount == old(mallocCount) - 1 && !(i < |blocks| && blocks[i].live)
                          && heapIndex == if i == |old(blocks)| - 1 then old(blocks)[i].base else old(heapIndex)
    {
      if mem.Null? {
        return false;
      }
      BlockInHeap(i);
      failed := IsOverrun(mem.offset, i);
      ReleaseMemory(mem.offset, i);
    }

    /** A client may write any byte except the size field of a block in use. */
    method ClientWrite(at: nat, value: byte)
      requires Valid() && at < heap.Length
      requires forall b :: b in blocks && b.live ==> !(b.base <= at < b.base + 8)
      modifies heap
      ensures Valid() && heap[..] == old(heap[..])[at := value]
    {
      ghost var before := heap[..];
      heap[at] := value;
      forall b | b in blocks && b.live
        ensures SizeKept(heap[..], b)
      {
        assert before[b.base..b.base + 8] == heap[..][b.base..b.base + 8];
        Le64Local(before, heap[..], b.base);
      }
    }

    /** `unity_calloc`: the product wraps around before it is requested; the block is zeroed. */
    method Calloc(num: u64, size: u64) returns (mem: Pointer, wraps: bool)
      requires Valid()
      modifies this`heapIndex, this`mallocCount, this`countdown, this`blocks, heap
      ensures wraps <==> MallocWraps(old(State()), capacity, num * size % TWO_TO_THE_64)
      ensures !wraps ==> Valid() && (State(), mem) == MallocStep(old(State()), capacity, num * size % TWO_TO_THE_64)
      ensures !wraps && mem.Null? ==> heap[..] == old(heap[..])
      ensures var n, base := num * size % TWO_TO_THE_64, old(heapIndex);
              !wraps && mem.At? ==>
                && mem == At(base + GUARD_SIZE) && base + Extent(n) <= capacity && mem.offset + n <= capacity
                && heap[..] == Spliced(Stamped(old(heap[..]), base, n), mem.offset, Zeros(n))
                && forall k :: mem.offset <= k < mem.offset + n ==> heap[k] == 0
      ensures !wraps ==> MallocLaw(old(State()), capacity, num * size % TWO_TO_THE_64, State(), mem)
    {
      hide Extent, Inv, SizesKept, Stamped, Top, MallocWraps, MallocStep, MallocLaw;
      var product: u64 := num * size % TWO_TO_THE_64;
      MallocResult(State(), capacity, product);
      mem, wraps := Malloc(product);
      if wraps || mem.Null? {
        return;
      }
      ZeroNewest(mem.offset, product);
    }

    /** `memset(mem, 0, size)` on the block just handed out. */
    method ZeroNewest(mem: nat, size: u64)
      requires Valid() && blocks != [] && mem == blocks[|blocks| - 1].Data() && size == blocks[|blocks| - 1].size
      modifies heap
      ensures Valid() && mem + size <= heap.Length
      ensures heap[..] == Spliced(old(heap[..]), mem, Zeros(size))
    {
      BlockInHeap(|blocks| - 1);
      WriteData(mem, Zeros(size), |blocks| - 1);
    }

    /** `UnityMalloc_StartTest`. */
    method StartTest()
      requires Valid()
      modifies this
      ensures Valid() && blocks == old(blocks) && outside == Live(blocks)
      ensures mallocCount == 0 && countdown == MALLOC_DONT_FAIL
    {
      mallocCount, countdown := 0, MALLOC_DONT_FAIL;
      outside := Live(blocks);
    }

    /** `UnityMalloc_MakeMallocFailAfterCount`. */
    method MakeMallocFailAfterCount(count: int)
      requires Valid()
      modifies this`countdown
      ensures Valid() && State() == old(State()).(countdown := count)
    {
      countdown := count;
    }

    /** `UnityMalloc_EndTest`: a leak is reported exactly when the blocks in use are not as many as at the start. */
    method EndTest() returns (leak: bool)
      requires Valid()
      modifies this`countdown
      ensures Valid() && countdown == MALLOC_DONT_FAIL
      ensures leak <==> Live(blocks) != outside
    {
      countdown := MALLOC_DONT_FAIL;
      leak := mallocCount != 0;
    }

    /**
     `unity_realloc`. An overrun block is released and the test fails. Otherwise the layout changes
     as `ReallocStep` says and the heap as `Rewritten` says: the result is intact and keeps the old
     bytes that fit, and the bytes of every other block stay as they were.
    */
    method Realloc(oldMem: Pointer, size: u64, ghost i: nat) returns (out: Outcome)
      requires Valid() && (oldMem.At? ==> InUse(oldMem, i))
      modifies this`heapIndex, this`mallocCount, this`countdown, this`blocks, heap
      ensures !out.Wrapped? ==> Valid()
      ensures oldMem.Null? ==> (out.Wrapped? <==> MallocWraps(old(State()), capacity, size))
      ensures oldMem.Null? && !out.Wrapped? ==>
                && out.Returned? && (State(), out.mem) == MallocStep(old(State()), capacity, size)
                && Allocated(old(heap[..]), heap[..], old(heapIndex), size, out.mem)
      ensures oldMem.Null? && !out.Wrapped? ==> MallocLaw(old(State()), capacity, size, State(), out.mem)
      ensures oldMem.At? ==> old(blocks)[i].Limit() <= |old(heap[..])|
      ensures oldMem.At? && !Intact(old(heap[..]), old(blocks)[i]) ==>
                out == TestFailed && State() == ReleaseStep(old(State()), i) && heap[..] == old(heap[..])
      ensures oldMem.At? && Intact(old(heap[..]), old(blocks)[i]) ==>
                (out.Wrapped? <==> ReallocWraps(old(State()), capacity, i, size))
      ensures oldMem.At? && Intact(old(heap[..]), old(blocks)[i]) && !out.Wrapped? ==>
                && out.Returned? && (State(), out.mem) == ReallocStep(old(State()), capacity, i, size)
                && Rewritten(old(heap[..]), heap[..], old(blocks)[i], size, out.mem)
                && Preserved(old(heap[..]), heap[..], old(blocks), i, size, out.mem)
      ensures oldMem.At? && Intact(old(heap[..]), old(blocks)[i]) && !out.Wrapped? ==>
                ReallocLaw(old(State()), capacity, i, size, State(), out.mem)
    {
      if oldMem.Null? {
        var p, wraps := Malloc(size);
        return if wraps then Wrapped else Returned(p);
      }
      BlockInHeap(i);
      var overrun := IsOverrun(oldMem.offset, i);
      if overrun {
        ReleaseMemory(oldMem.offset, i);
        return TestFailed;
      }
      ghost var a, h := State(), heap[..];
      ReallocObserved(a, capacity, i, size, outside);
      hide Inv, SizesKept, Rewritten, Preserved, Extent, Top, ReallocStep, ReallocWraps, ReallocLaw, Intact, Tiled;
      var p, wraps := ReallocIntact(oldMem.offset, size, i);
      if wraps {
        return Wrapped;
      }
      ReallocLands(a, capacity, i, size, outside);
      RewrittenPreserves(h, heap[..], a.blocks, i, size, p);
      return Returned(p);
    }

    /** `unity_realloc` of a block that is not overrun. */
    method ReallocIntact(mem: nat, size: u64, ghost i: nat) returns (p: Pointer, wraps: bool)
      requires Valid() && InUse(At(mem), i)
      modifies this`heapIndex, this`mallocCount, this`countdown, this`blocks, heap
      ensures wraps <==> ReallocWraps(old(State()), capacity, i, size)
      ensures !wraps ==> Valid() && (State(), p) == ReallocStep(old(State()), capacity, i, size)
      ensures !wraps ==> Rewritten(old(heap[..]), heap[..], old(blocks)[i], size, p)
    {
      BlockInHeap(i);
      hide Inv, SizesKept, Extent, Top, Stamped, MallocWraps;
      if size == 0 {
        ReleaseMemory(mem, i);
        return Null, false;
      }
      var guardSize := ReadWord(mem - 16);
      if guardSize >= size {
        return At(mem), false;
      }
      if CanGrow(mem, guardSize, size, i) {
        p, wraps := GrowInPlace(mem, size, i);
      } else {
        p, wraps := Move(mem, size, i);
      }
    }

    /** The in-place test of `unity_realloc`: the block is the topmost one and the bound test passes. */
    predicate CanGrow(mem: nat, guardSize: u64, size: u64, ghost i: nat)
      requires Valid() && InUse(At(mem), i) && guardSize == blocks[i].size < size
      reads this, heap
      ensures CanGrow(mem, guardSize, size, i) <==> GrowsInPlace(State(), capacity, i, size)
    {
      BlockInHeap(i);
      SameSum(blocks[i].base, size);
      var oldTotalSize := RoundUp(guardSize + 4);
      && mem == heapIndex - oldTotalSize
      && (heapIndex - oldTotalSize + RoundUp((size + 4) % TWO_TO_THE_64)) % TWO_TO_THE_64 <= capacity
    }

    lemma SameSum(base: nat, size: u64)
      ensures (base + 16 + RoundUp((size + 4) % TWO_TO_THE_64)) % TWO_TO_THE_64
           == (base + TotalSize(size)) % TWO_TO_THE_64
    {
    }

    /** Release and allocate again: the data stays where it is. */
    method GrowInPlace(mem: nat, size: u64, ghost i: nat) returns (p: Pointer, wraps: bool)
      requires Valid() && InUse(At(mem), i) && blocks[i].size < size && GrowsInPlace(State(), capacity, i, size)
      modifies this`heapIndex, this`mallocCount, this`countdown, this`blocks, heap
      ensures wraps <==> MallocWraps(ReleaseStep(old(State()), i), capacity, size)
      ensures !wraps ==> Valid() && (State(), p) == MallocStep(ReleaseStep(old(State()), i), capacity, size)
      ensures !wraps ==> Rewritten(old(heap[..]), heap[..], old(blocks)[i], size, p)
    {
      ghost var h, b := heap[..], blocks[i];
      BlockInHeap(i);
      ReleaseMemory(mem, i);
      hide Inv, SizesKept, Stamped, Tiled, Extent, Rewritten, MallocWraps;
      MallocResult(State(), capacity, size);
      p, wraps := Malloc(size);
      if wraps {
        return;
      }
      if p.Null? {
        NothingRewritten(h, b, size);
      } else {
        GrownRewrites(h, b, size);
      }
    }

    /** Allocate elsewhere, copy the recorded bytes, release the old block. */
    method Move(mem: nat, size: u64, ghost i: nat) returns (p: Pointer, wraps: bool)
      requires Valid() && InUse(At(mem), i) && blocks[i].size < size
      modifies this`heapIndex, this`mallocCount, this`countdown, this`blocks, heap
      ensures wraps <==> MallocWraps(old(State()), capacity, size)
      ensures var (a, q) := MallocStep(old(State()), capacity, size);
              !wraps ==> && Valid() && p == q && i < |a.blocks|
                         && State() == if q.Null? then a else ReleaseStep(a, i)
      ensures !wraps ==> Rewritten(old(heap[..]), heap[..], old(blocks)[i], size, p)
    {
      ghost var h, b, base := heap[..], blocks[i], Top(blocks);
      BlockInHeap(i);
      MallocResult(State(), capacity, size);
      hide Inv, SizesKept, Extent, Top, Stamped, MallocWraps, Rewritten, MallocStep, ReleaseStep, Tiled;
      p, wraps := Malloc(size);
      if wraps {
        return;
      }
      if p.Null? {
        NothingRewritten(h, b, size);
      } else {
        CopyAndRelease(mem, p.offset, size, i, h, base);
      }
    }

    /** The rest of a move: `memcpy(newMem, oldMem, guard->size)` into the newest block, then the release. */
    method CopyAndRelease(mem: nat, newMem: nat, ghost size: u64, ghost i: nat, ghost h: seq<byte>, ghost base: nat)
      requires Valid() && InUse(At(mem), i) && i < |blocks| - 1 && blocks[|blocks| - 1] == Block(base, size, true)
      requires newMem == base + GUARD_SIZE && blocks[i].size < size && blocks[i].Limit() <= base
      requires base + Extent(size) <= |h| && heap[..] == Stamped(h, base, size)
      modifies this`heapIndex, this`mallocCount, this`blocks, heap
      ensures Valid() && State() == ReleaseStep(old(State()), i)
      ensures Rewritten(h, heap[..], old(blocks)[i], size, At(newMem))
    {
      hide Inv, SizesKept, Spliced, Stamped, Extent, Rewritten;
      ghost var data := CopyData(mem, newMem, i);
      CopyRewrites(h, data, heap[..], blocks[i], base, size);
      ReleaseMemory(mem, i);
    }

    method CopyData(mem: nat, newMem: nat, ghost i: nat) returns (ghost copied: seq<byte>)
      requires Valid() && InUse(At(mem), i) && i < |blocks| - 1
      requires newMem == blocks[|blocks| - 1].Data() && blocks[i].size <= blocks[|blocks| - 1].size
      modifies heap
      ensures Valid() && mem + blocks[i].size <= heap.Length && newMem + |copied| <= heap.Length
      ensures copied == old(heap[..])[mem..mem + blocks[i].size]
      ensures heap[..] == Spliced(old(heap[..]), newMem, copied)
    {
      CopyFits(i);
      hide Extent, Valid, Spliced;
      var size := ReadWord(mem - 16);
      var data := heap[mem..mem + size];
      assert data == heap[..][mem..mem + size];
      WriteData(newMem, data, |blocks| - 1);
      return data;
    }

    lemma CopyFits(i: nat)
      requires Valid() && i < |blocks| - 1 && blocks[i].live && blocks[i].size <= blocks[|blocks| - 1].size
      ensures blocks[i].Data() + blocks[i].size <= heap.Length && Le64(heap[..], blocks[i].base) == blocks[i].size
      ensures var b := blocks[|blocks| - 1]; b.Data() + blocks[i].size <= b.Limit() <= heap.Length
    {
      BlockInHeap(i);
      BlockInHeap(|blocks| - 1);
      ExtentPositive(blocks[i].size);
      ExtentPositive(blocks[|blocks| - 1].size);
    }

    /** Bytes written inside the data of a block disturb no guard. */
    method WriteData(at: nat, data: seq<byte>, ghost i: nat)
      requires Valid() && i < |blocks| && blocks[i].Data() <= at && at + |data| <= blocks[i].Limit() <= heap.Length
      modifies heap
      ensures Valid() && heap[..] == Spliced(old(heap[..]), at, data)
    {
      hide SizesKept, Spliced;
      DataWriteKeepsSizes(heap[..], blocks, i, at, data);
      Put(at, data);
    }
  }
}
