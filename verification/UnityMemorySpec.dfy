/**
 unity_memory.c with UNITY_EXCLUDE_STDLIB_MALLOC: what its operations do to the layout of the
 internal heap. Blocks are carved from the end of one array and only the topmost one can be
 reclaimed; a block released below the top stays stranded.
 */
module UnityMemorySpec {
  import opened Words

  const ALIGNMENT: nat := 8
  const GUARD_SIZE: nat := 16
  const MALLOC_DONT_FAIL: int := -1
  // The C string "END" with its terminator.
  const END: seq<byte> := [0x45, 0x4e, 0x44, 0]

  // ---------------------------------------------------------------- sizes

  /** `unity_size_round_up`, in wrap-around arithmetic. */
  function RoundUp(size: u64): u64 {
    (size + 7) % TWO_TO_THE_64 / 8 * 8
  }

  /** `total_size` as `unity_malloc` computes it, in wrap-around arithmetic. */
  function TotalSize(size: u64): u64 {
    (16 + RoundUp((size + 4) % TWO_TO_THE_64)) % TWO_TO_THE_64
  }

  /** The bytes a block really needs: the guard, the data, the end marker, rounded up. */
  function Extent(size: nat): nat {
    16 + (size + 11) / 8 * 8
  }

  lemma ExtentPositive(size: nat)
    ensures Extent(size) >= size + 20 && Extent(size) % ALIGNMENT == 0
  {
  }

  /** No smaller multiple of the alignment holds the guard, the data and the end marker. */
  lemma ExtentLeast(size: nat, n: nat)
    requires n % ALIGNMENT == 0
    ensures Extent(size) % ALIGNMENT == 0
    ensures 16 + size + 4 <= n <==> Extent(size) <= n
  {
  }

  predicate Fits(top: nat, size: nat, capacity: nat) {
    top + Extent(size) <= capacity
  }

  /** The test `heap_index + total_size <= UNITY_INTERNAL_HEAP_SIZE_BYTES` on machine words. */
  predicate Accepts(top: nat, size: u64, capacity: nat) {
    (top + TotalSize(size)) % TWO_TO_THE_64 <= capacity
  }

  /** The request does not wrap around into the heap. */
  predicate Representable(top: nat, size: nat, capacity: nat) {
    top + Extent(size) < TWO_TO_THE_64 || top + Extent(size) > TWO_TO_THE_64 + capacity
  }

  lemma RoundUpResidue(size: u64)
    ensures RoundUp(size) == (size + 7) / 8 * 8 % TWO_TO_THE_64
  {
  }

  lemma TotalSizeResidue(size: u64)
    ensures TotalSize(size) == Extent(size) % TWO_TO_THE_64
  {
    var wrapped, rounded := (size + 4) % TWO_TO_THE_64, (size + 11) / 8 * 8;
    RoundUpResidue(wrapped);
    var total := 16 + RoundUp(wrapped);
    assert (wrapped + 7) / 8 * 8 == if size + 4 < TWO_TO_THE_64 then rounded else rounded - TWO_TO_THE_64;
    hide RoundUp;
    assert RoundUp(wrapped) == rounded % TWO_TO_THE_64;
    DivModUnique(16 + rounded, TWO_TO_THE_64, rounded / TWO_TO_THE_64 + total / TWO_TO_THE_64, total % TWO_TO_THE_64);
  }

  /** The machine test is the intended one exactly for the requests that do not wrap into the heap. */
  lemma AcceptsExactly(top: nat, size: u64, capacity: nat)
    requires top <= capacity < TWO_TO_THE_64 / 2
    ensures (Accepts(top, size, capacity) <==> Fits(top, size, capacity)) <==> Representable(top, size, capacity)
  {
    SumResidue(top, size);
    var sum := top + Extent(size);
    assert Extent(size) < TWO_TO_THE_64 + 32;
    if sum >= TWO_TO_THE_64 {
      DivModUnique(sum, TWO_TO_THE_64, 1, sum - TWO_TO_THE_64);
    } else {
      DivModUnique(sum, TWO_TO_THE_64, 0, sum);
    }
  }

  /** The word sum of the test is the true sum modulo 2^64. */
  lemma SumResidue(top: nat, size: u64)
    ensures (top + TotalSize(size)) % TWO_TO_THE_64 == (top + Extent(size)) % TWO_TO_THE_64
  {
    TotalSizeResidue(size);
    var total, dropped := TotalSize(size), Extent(size) / TWO_TO_THE_64;
    hide Extent, TotalSize;
    DivModUnique(top + Extent(size), TWO_TO_THE_64,
                 dropped + (top + total) / TWO_TO_THE_64, (top + total) % TWO_TO_THE_64);
  }

  /** A request that fits does not wrap. */
  lemma FitsRepresentable(top: nat, size: nat, capacity: nat)
    requires capacity < TWO_TO_THE_64 / 2
    ensures Fits(top, size, capacity) ==> Representable(top, size, capacity)
  {
  }

  lemma ZeroRepresentable(top: nat, capacity: nat)
    requires top <= capacity < TWO_TO_THE_64 / 2
    ensures Representable(top, 0, capacity)
  {
  }

  lemma FittingSizeExact(top: nat, size: u64, capacity: nat)
    requires capacity < TWO_TO_THE_64 / 2
    ensures Fits(top, size, capacity) ==> TotalSize(size) == Extent(size)
  {
    TotalSizeResidue(size);
  }

  /** On the default heap of 256 bytes the largest request is accepted, with 24 bytes for it. */
  lemma LargestRequestWraps()
    ensures Accepts(0, TWO_TO_THE_64 - 1, 256) && !Fits(0, TWO_TO_THE_64 - 1, 256)
  {
    assert TotalSize(TWO_TO_THE_64 - 1) == 24;
  }

  // ---------------------------------------------------------------- layout

  datatype Pointer = Null | At(offset: nat)

  /** A block of the heap: where its guard starts, the size it records, and whether it is in use. */
  datatype Block = Block(base: nat, size: nat, live: bool) {
    function Data(): nat { base + GUARD_SIZE }
    function Limit(): nat { base + Extent(size) }
  }

  /** The heap as the operations see it: its blocks from the bottom up and the two counters. */
  datatype Arena = Arena(blocks: seq<Block>, count: int, countdown: int)

  /** Where the `i`-th block has to start: the end of the one below it. */
  function FloorOf(blocks: seq<Block>, i: nat): nat
    requires i <= |blocks|
  {
    if i == 0 then 0 else blocks[i - 1].Limit()
  }

  function Top(blocks: seq<Block>): nat {
    FloorOf(blocks, |blocks|)
  }

  /** Every block starts where the one below it ends. */
  ghost predicate Tiled(blocks: seq<Block>) {
    forall i {:trigger FloorOf(blocks, i)} :: 0 <= i < |blocks| ==> blocks[i].base == FloorOf(blocks, i)
  }

  function Live(blocks: seq<Block>): nat {
    if blocks == [] then 0 else Live(blocks[..|blocks| - 1]) + if blocks[|blocks| - 1].live then 1 else 0
  }

  /** A higher block starts at or above the end of a lower one. */
  lemma {:induction false} TiledApart(blocks: seq<Block>, i: nat, j: nat)
    requires Tiled(blocks) && i < j < |blocks|
    ensures blocks[i].Limit() <= blocks[j].base
    decreases j
  {
    hide Extent;
    assert blocks[j].base == FloorOf(blocks, j);
    ExtentPositive(blocks[j - 1].size);
    if i < j - 1 {
      TiledApart(blocks, i, j - 1);
    }
  }

  lemma AlignedSum(x: nat, y: nat)
    requires x % ALIGNMENT == 0 && y % ALIGNMENT == 0
    ensures (x + y) % ALIGNMENT == 0
  {
  }

  lemma {:induction false} TiledAligned(blocks: seq<Block>, i: nat)
    requires Tiled(blocks) && i < |blocks|
    ensures blocks[i].base % ALIGNMENT == 0
    decreases i
  {
    hide Extent;
    assert blocks[i].base == FloorOf(blocks, i);
    if i > 0 {
      TiledAligned(blocks, i - 1);
      ExtentPositive(blocks[i - 1].size);
      AlignedSum(blocks[i - 1].base, Extent(blocks[i - 1].size));
    }
  }

  /** Blocks are aligned, inside the used part of the heap, and pairwise disjoint. */
  lemma TiledLayout(blocks: seq<Block>, i: nat)
    requires Tiled(blocks) && i < |blocks|
    ensures blocks[i].base % ALIGNMENT == 0 && blocks[i].Limit() <= Top(blocks)
    ensures forall j :: 0 <= j < |blocks| && j != i ==>
              blocks[i].Limit() <= blocks[j].base || blocks[j].Limit() <= blocks[i].base
    ensures blocks[i].Limit() == Top(blocks) <==> i == |blocks| - 1
  {
    hide Extent;
    TiledAligned(blocks, i);
    var n := |blocks| - 1;
    ExtentPositive(blocks[n].size);
    if i < n {
      TiledApart(blocks, i, n);
    }
    forall j | 0 <= j < |blocks| && j != i
      ensures if i < j then blocks[i].Limit() <= blocks[j].base else blocks[j].Limit() <= blocks[i].base
    {
      TiledApart(blocks, if i < j then i else j, if i < j then j else i);
    }
  }

  // ---------------------------------------------------------------- the operations

  /** `unity_malloc`: the countdown first, then the size, then the bound test on machine words. */
  function MallocStep(a: Arena, capacity: nat, size: u64): (Arena, Pointer) {
    if a.countdown == 0 then (a, Null)
    else
      var a' := if a.countdown == MALLOC_DONT_FAIL then a else a.(countdown := a.countdown - 1);
      var top := Top(a.blocks);
      if size == 0 || !Accepts(top, size, capacity) then (a', Null)
      else (a'.(blocks := a.blocks + [Block(top, size, true)], count := a.count + 1), At(top + GUARD_SIZE))
  }

  /** The request reaches the bound test and wraps around into the heap there. */
  predicate MallocWraps(a: Arena, capacity: nat, size: u64) {
    a.countdown != 0 && !Representable(Top(a.blocks), size, capacity)
  }

  /** `release_memory`: the topmost block is reclaimed, any other one is stranded. */
  function ReleaseStep(a: Arena, i: nat): Arena
    requires i < |a.blocks|
  {
    var blocks := if i == |a.blocks| - 1 then a.blocks[..i] else a.blocks[i := a.blocks[i].(live := false)];
    a.(blocks := blocks, count := a.count - 1)
  }

  /** Whether `unity_realloc` grows block `i` where it stands; the bound test is again on machine words. */
  predicate GrowsInPlace(a: Arena, capacity: nat, i: nat, size: u64)
    requires i < |a.blocks|
  {
    i == |a.blocks| - 1 && Accepts(a.blocks[i].base, size, capacity)
  }

  /** `unity_realloc` of the intact block `i`. */
  function ReallocStep(a: Arena, capacity: nat, i: nat, size: u64): (Arena, Pointer)
    requires i < |a.blocks|
  {
    var b := a.blocks[i];
    if size == 0 then (ReleaseStep(a, i), Null)
    else if b.size >= size then (a, At(b.Data()))
    else if GrowsInPlace(a, capacity, i, size) then MallocStep(ReleaseStep(a, i), capacity, size)
    else
      var (a', p) := MallocStep(a, capacity, size);
      if p.Null? then (a', Null) else (ReleaseStep(a', i), p)
  }

  /** The allocation inside that reallocation, if there is one, wraps around into the heap. */
  predicate ReallocWraps(a: Arena, capacity: nat, i: nat, size: u64)
    requires i < |a.blocks|
  {
    && a.blocks[i].size < size
    && MallocWraps(if GrowsInPlace(a, capacity, i, size) then ReleaseStep(a, i) else a, capacity, size)
  }

  // ---------------------------------------------------------------- what every operation keeps

  /** The layout invariant of a heap in memory; `outside` is the number of live blocks the counter does not count. */
  ghost predicate Inv(a: Arena, capacity: nat, outside: int) {
    && Tiled(a.blocks) && Top(a.blocks) <= capacity < TWO_TO_THE_64 / 2
    && a.count == Live(a.blocks) - outside
  }

  lemma LiveAppend(blocks: seq<Block>, b: Block)
    ensures Live(blocks + [b]) == Live(blocks) + if b.live then 1 else 0
  {
    assert (blocks + [b])[..|blocks|] == blocks;
  }

  lemma {:induction false} LiveUpdate(blocks: seq<Block>, i: nat)
    requires i < |blocks| && blocks[i].live
    ensures Live(blocks[i := blocks[i].(live := false)]) == Live(blocks) - 1
    decreases |blocks|
  {
    var n := |blocks| - 1;
    var after := blocks[i := blocks[i].(live := false)];
    if i < n {
      assert after[..n] == blocks[..n][i := blocks[i].(live := false)];
      LiveUpdate(blocks[..n], i);
    } else {
      assert after[..n] == blocks[..n];
    }
  }

  lemma TiledAppend(blocks: seq<Block>, b: Block)
    requires Tiled(blocks) && b.base == Top(blocks)
    ensures Tiled(blocks + [b]) && Top(blocks + [b]) == b.Limit()
  {
    hide Extent;
    var longer := blocks + [b];
    forall i | 0 <= i < |longer|
      ensures longer[i].base == FloorOf(longer, i)
    {
      assert FloorOf(longer, i) == FloorOf(blocks, i);
      assert i < |blocks| ==> longer[i] == blocks[i];
    }
  }

  lemma TiledRelease(blocks: seq<Block>, i: nat)
    requires Tiled(blocks) && i < |blocks|
    ensures Tiled(blocks[..i]) && Top(blocks[..i]) == blocks[i].base
    ensures Tiled(blocks[i := blocks[i].(live := false)])
    ensures Top(blocks[i := blocks[i].(live := false)]) == Top(blocks)
  {
    hide Extent;
    var front, after := blocks[..i], blocks[i := blocks[i].(live := false)];
    forall j | 0 <= j < |after|
      ensures after[j].base == FloorOf(after, j)
    {
      assert FloorOf(after, j) == FloorOf(blocks, j) && after[j].base == blocks[j].base;
    }
    forall j | 0 <= j < |front|
      ensures front[j].base == FloorOf(front, j)
    {
      assert FloorOf(front, j) == FloorOf(blocks, j) && front[j] == blocks[j];
    }
    assert blocks[i].base == FloorOf(blocks, i);
  }

  /** The one new block of a successful allocation, and the address in it. */
  lemma MallocResult(a: Arena, capacity: nat, size: u64)
    ensures var ((a', p), top) := (MallocStep(a, capacity, size), Top(a.blocks));
            if p.Null? then a'.blocks == a.blocks
            else p == At(top + GUARD_SIZE) && a'.blocks == a.blocks + [Block(top, size, true)]
  {
    hide Accepts;
  }

  /** Among the requests that the bound test lets pass, exactly those that do not fit wrap. */
  lemma WrapCases(a: Arena, capacity: nat, size: u64)
    requires Top(a.blocks) <= capacity < TWO_TO_THE_64 / 2
    ensures MallocWraps(a, capacity, size) <==>
            a.countdown != 0 && Accepts(Top(a.blocks), size, capacity) && !Fits(Top(a.blocks), size, capacity)
    ensures MallocWraps(a, capacity, size) ==> size > 0
    ensures Fits(Top(a.blocks), size, capacity) ==> TotalSize(size) == Extent(size)
  {
    var top := Top(a.blocks);
    hide Top, Accepts;
    AcceptsExactly(top, size, capacity);
    FitsRepresentable(top, size, capacity);
    FittingSizeExact(top, size, capacity);
    ZeroRepresentable(top, capacity);
  }

  /** Unless the request wraps, a successful allocation fits. */
  lemma MallocFits(a: Arena, capacity: nat, size: u64)
    requires Top(a.blocks) <= capacity < TWO_TO_THE_64 / 2 && !MallocWraps(a, capacity, size)
    ensures MallocStep(a, capacity, size).1.At? ==> Fits(Top(a.blocks), size, capacity)
  {
    AcceptsExactly(Top(a.blocks), size, capacity);
    hide Accepts, Fits, Representable, Top;
  }

  /** A request that wraps is accepted, although its block does not fit. */
  lemma WrappingAccepted(a: Arena, capacity: nat, size: u64)
    requires Top(a.blocks) <= capacity < TWO_TO_THE_64 / 2 && MallocWraps(a, capacity, size)
    ensures MallocStep(a, capacity, size).1.At? && !Fits(Top(a.blocks), size, capacity)
  {
    var top := Top(a.blocks);
    AcceptsExactly(top, size, capacity);
    assert size > 0 && !Fits(top, size, capacity);
    hide Accepts, Fits, Top;
  }

  /**
   An allocation keeps the layout exactly when its request does not wrap around. A new block starts
   above every existing one, so no byte in use is handed out again.
  */
  lemma MallocKeepsInv(a: Arena, capacity: nat, size: u64, outside: int)
    requires Inv(a, capacity, outside)
    ensures var (a', p) := MallocStep(a, capacity, size);
            && (Inv(a', capacity, outside) <==> !MallocWraps(a, capacity, size))
            && (p.Null? ==> a'.blocks == a.blocks && a'.count == a.count)
            && (p.At? ==> forall i :: 0 <= i < |a.blocks| ==> a.blocks[i].Limit() + GUARD_SIZE <= p.offset)
  {
    var (a', p) := MallocStep(a, capacity, size);
    if MallocWraps(a, capacity, size) {
      WrappingAccepted(a, capacity, size);
    } else {
      MallocFits(a, capacity, size);
    }
    hide Accepts, Representable, MallocWraps;
    if p.At? {
      LiveAppend(a.blocks, Block(Top(a.blocks), size, true));
      TiledAppend(a.blocks, Block(Top(a.blocks), size, true));
      forall i | 0 <= i < |a.blocks|
        ensures a.blocks[i].Limit() <= Top(a.blocks)
      {
        TiledLayout(a.blocks, i);
      }
    }
  }

  lemma ReleaseKeepsInv(a: Arena, capacity: nat, i: nat, outside: int)
    requires Inv(a, capacity, outside) && i < |a.blocks| && a.blocks[i].live
    ensures Inv(ReleaseStep(a, i), capacity, outside)
    ensures Top(ReleaseStep(a, i).blocks) == if i == |a.blocks| - 1 then a.blocks[i].base else Top(a.blocks)
  {
    TiledRelease(a.blocks, i);
    if i < |a.blocks| - 1 {
      LiveUpdate(a.blocks, i);
    }
  }

  /** A reallocation keeps the layout exactly when its allocation does not wrap around. */
  lemma ReallocKeepsInv(a: Arena, capacity: nat, i: nat, size: u64, outside: int)
    requires Inv(a, capacity, outside) && i < |a.blocks| && a.blocks[i].live
    ensures Inv(ReallocStep(a, capacity, i, size).0, capacity, outside) <==> !ReallocWraps(a, capacity, i, size)
  {
    hide Inv, MallocStep, ReleaseStep, MallocWraps, Accepts;
    MallocKeepsInv(a, capacity, size, outside);
    ReleaseKeepsInv(a, capacity, i, outside);
    MallocKeepsInv(ReleaseStep(a, i), capacity, size, outside);
    var (a', p) := MallocStep(a, capacity, size);
    MallocKeepsBlocks(a, capacity, size, i);
    if p.At? {
      MallocResult(a, capacity, size);
      ReleaseBelowKeepsInv(a', capacity, i, outside);
    }
  }

  /** Releasing a block that is not the topmost one does not change whether the layout is right. */
  lemma ReleaseBelowKeepsInv(a: Arena, capacity: nat, i: nat, outside: int)
    requires i < |a.blocks| - 1 && a.blocks[i].live
    ensures Inv(ReleaseStep(a, i), capacity, outside) <==> Inv(a, capacity, outside)
  {
    LiveUpdate(a.blocks, i);
    var after := a.blocks[i := a.blocks[i].(live := false)];
    hide Extent;
    if Tiled(a.blocks) {
      TiledRelease(a.blocks, i);
    }
    if Tiled(after) {
      SameTiling(after, a.blocks);
    }
  }

  lemma SameTiling(blocks: seq<Block>, others: seq<Block>)
    requires |blocks| == |others| && Tiled(blocks)
    requires forall i :: 0 <= i < |blocks| ==> blocks[i].base == others[i].base && blocks[i].size == others[i].size
    ensures Tiled(others) && Top(others) == Top(blocks)
  {
    hide Extent;
    forall i | 0 <= i < |others|
      ensures others[i].base == FloorOf(others, i)
    {
      assert FloorOf(others, i) == FloorOf(blocks, i);
    }
  }

  lemma MallocKeepsBlocks(a: Arena, capacity: nat, size: u64, i: nat)
    requires i < |a.blocks|
    ensures var a' := MallocStep(a, capacity, size).0; i < |a'.blocks| && a'.blocks[i] == a.blocks[i]
  {
  }

  // ---------------------------------------------------------------- what a caller observes

  /** When an allocation is served, which block it makes, and that NULL changes no block. */
  ghost predicate MallocLaw(a: Arena, capacity: nat, size: nat, a': Arena, p: Pointer) {
    var top := Top(a.blocks);
    && (p.At? <==> a.countdown != 0 && size > 0 && top + Extent(size) <= capacity)
    && (p.Null? ==> a'.blocks == a.blocks && a'.count == a.count)
    && (p.At? ==> p == At(top + GUARD_SIZE) && a'.blocks == a.blocks + [Block(top, size, true)]
                  && a'.count == a.count + 1)
    && a'.countdown == if a.countdown == 0 || a.countdown == -1 then a.countdown else a.countdown - 1
  }

  lemma MallocObserved(a: Arena, capacity: nat, size: u64)
    requires Top(a.blocks) <= capacity < TWO_TO_THE_64 / 2
    ensures var (a', p) := MallocStep(a, capacity, size);
            !MallocWraps(a, capacity, size) ==> MallocLaw(a, capacity, size, a', p)
  {
    WrapCases(a, capacity, size);
    FittingAccepted(Top(a.blocks), size, capacity);
    hide Accepts, Top, MallocWraps, Extent;
  }

  lemma FittingAccepted(top: nat, size: u64, capacity: nat)
    requires top <= capacity < TWO_TO_THE_64 / 2
    ensures Fits(top, size, capacity) ==> Accepts(top, size, capacity)
  {
    AcceptsExactly(top, size, capacity);
    FitsRepresentable(top, size, capacity);
    hide Accepts, Fits, Representable;
  }

  /** A release: one block in use fewer, and no other block changes; the topmost one gives its room back. */
  lemma ReleaseObserved(a: Arena, i: nat)
    requires Tiled(a.blocks) && i < |a.blocks| && a.blocks[i].live
    ensures var a' := ReleaseStep(a, i);
            && a'.count == a.count - 1 && Live(a'.blocks) == Live(a.blocks) - 1 && a'.countdown == a.countdown
            && !(i < |a'.blocks| && a'.blocks[i].live)
            && (forall j :: 0 <= j < |a.blocks| && j != i ==> j < |a'.blocks| && a'.blocks[j] == a.blocks[j])
            && Top(a'.blocks) == if i == |a.blocks| - 1 then a.blocks[i].base else Top(a.blocks)
  {
    TiledRelease(a.blocks, i);
    hide Extent, Top;
    if i < |a.blocks| - 1 {
      LiveUpdate(a.blocks, i);
    }
  }

  /**
   What becomes of a reallocation of block `i`. To 0 bytes it is a release, and within the recorded
   size nothing changes. A larger size takes the topmost block where it stands and any other block on
   top of the heap, as long as there is room there and no failure is forced; otherwise the result is
   NULL, and only a topmost block that would have had room is lost.
  */
  ghost predicate ReallocLaw(a: Arena, capacity: nat, i: nat, size: nat, a': Arena, p: Pointer)
    requires i < |a.blocks|
  {
    var (b, top, last) := (a.blocks[i], Top(a.blocks), i == |a.blocks| - 1);
    if size == 0 then
      && p == Null && a'.count == a.count - 1 && Live(a'.blocks) == Live(a.blocks) - 1
      && !(i < |a'.blocks| && a'.blocks[i].live)
      && (forall j :: 0 <= j < |a.blocks| && j != i ==> j < |a'.blocks| && a'.blocks[j] == a.blocks[j])
      && Top(a'.blocks) == if last then b.base else top
    else if size <= b.size then a' == a && p == At(b.Data())
    else if (if last then b.base else top) + Extent(size) > capacity then
      // A size that wraps around at the base passes the in-place test.
      var lost := last && !Representable(b.base, size, capacity);
      && p == Null && a'.blocks == (if lost then a.blocks[..i] else a.blocks)
      && a'.count == if lost then a.count - 1 else a.count
    else if a.countdown == 0 then
      && p == Null && a'.blocks == (if last then a.blocks[..i] else a.blocks)
      && a'.count == if last then a.count - 1 else a.count
    else
      && a'.count == a.count
      && (last ==> p == At(b.Data()) && a'.blocks == a.blocks[..i] + [Block(b.base, size, true)])
      && (!last ==> p == At(top + GUARD_SIZE)
                    && a'.blocks == a.blocks[i := b.(live := false)] + [Block(top, size, true)])
  }

  lemma ReallocSmall(a: Arena, capacity: nat, i: nat, size: u64)
    requires Tiled(a.blocks) && i < |a.blocks| && a.blocks[i].live && size <= a.blocks[i].size
    ensures var (a', p) := ReallocStep(a, capacity, i, size); ReallocLaw(a, capacity, i, size, a', p)
  {
    ReleaseObserved(a, i);
  }

  lemma ReallocGrows(a: Arena, capacity: nat, i: nat, size: u64)
    requires Tiled(a.blocks) && Top(a.blocks) <= capacity < TWO_TO_THE_64 / 2
    requires i == |a.blocks| - 1 && a.blocks[i].size < size && a.blocks[i].base + Extent(size) <= capacity
    ensures var (a', p) := ReallocStep(a, capacity, i, size); ReallocLaw(a, capacity, i, size, a', p)
    ensures !ReallocWraps(a, capacity, i, size)
  {
    var released, base := ReleaseStep(a, i), a.blocks[i].base;
    TiledRelease(a.blocks, i);
    FitsRepresentable(base, size, capacity);
    FittingAccepted(base, size, capacity);
    assert Top(released.blocks) == base;
    hide Accepts, Representable, Extent, Top;
    MallocObserved(released, capacity, size);
  }

  lemma ReallocMoves(a: Arena, capacity: nat, i: nat, size: u64)
    requires Tiled(a.blocks) && Top(a.blocks) <= capacity < TWO_TO_THE_64 / 2
    requires i < |a.blocks| - 1 && a.blocks[i].size < size && Top(a.blocks) + Extent(size) <= capacity
    ensures var (a', p) := ReallocStep(a, capacity, i, size); ReallocLaw(a, capacity, i, size, a', p)
    ensures !ReallocWraps(a, capacity, i, size)
  {
    FitsRepresentable(Top(a.blocks), size, capacity);
    hide Accepts, Representable, Extent, Top;
    MallocObserved(a, capacity, size);
  }

  lemma ReallocNoRoom(a: Arena, capacity: nat, i: nat, size: u64)
    requires Tiled(a.blocks) && Top(a.blocks) <= capacity < TWO_TO_THE_64 / 2
    requires i < |a.blocks| && a.blocks[i].size < size && !ReallocWraps(a, capacity, i, size)
    requires capacity < (if i == |a.blocks| - 1 then a.blocks[i].base else Top(a.blocks)) + Extent(size)
    ensures var (a', p) := ReallocStep(a, capacity, i, size); ReallocLaw(a, capacity, i, size, a', p)
  {
    var base, top := a.blocks[i].base, Top(a.blocks);
    assert base <= top by {
      TiledLayout(a.blocks, i);
      ExtentPositive(a.blocks[i].size);
    }
    AcceptsExactly(base, size, capacity);
    assert i == |a.blocks| - 1 ==> Top(ReleaseStep(a, i).blocks) == base by {
      TiledRelease(a.blocks, i);
    }
    assert i == |a.blocks| - 1 ==> base + Extent(size) <= top + Extent(size);
    hide Accepts, Representable, Extent, Top, MallocWraps;
    MallocObserved(a, capacity, size);
    if GrowsInPlace(a, capacity, i, size) {
      assert a.countdown == 0 by {
        WrapsReleased(a, capacity, i, size);
      }
    }
  }

  lemma WrapsReleased(a: Arena, capacity: nat, i: nat, size: u64)
    requires i < |a.blocks| && a.blocks[i].size < size && !ReallocWraps(a, capacity, i, size)
    requires GrowsInPlace(a, capacity, i, size) && !Representable(Top(ReleaseStep(a, i).blocks), size, capacity)
    ensures a.countdown == 0
  {
  }

  /** Every reallocation that does not wrap obeys that law. */
  lemma ReallocObserved(a: Arena, capacity: nat, i: nat, size: u64, outside: int)
    requires Inv(a, capacity, outside) && i < |a.blocks| && a.blocks[i].live
    ensures var (a', p) := ReallocStep(a, capacity, i, size);
            !ReallocWraps(a, capacity, i, size) ==> ReallocLaw(a, capacity, i, size, a', p)
  {
    hide ReallocLaw, ReallocStep, ReallocWraps, Extent, Top, Tiled;
    var base := if i == |a.blocks| - 1 then a.blocks[i].base else Top(a.blocks);
    if size <= a.blocks[i].size {
      ReallocSmall(a, capacity, i, size);
    } else if base + Extent(size) > capacity {
      if !ReallocWraps(a, capacity, i, size) {
        ReallocNoRoom(a, capacity, i, size);
      }
    } else if i == |a.blocks| - 1 {
      ReallocGrows(a, capacity, i, size);
    } else {
      ReallocMoves(a, capacity, i, size);
    }
  }

  // ---------------------------------------------------------------- runs

  datatype Op = Malloc(size: u64) | Free(block: nat) | Realloc(block: nat, size: u64) | FailAfter(countdown: int)

  /** The caller hands back only blocks that are in use. */
  predicate Allowed(a: Arena, op: Op) {
    match op
    case Free(i) => i < |a.blocks| && a.blocks[i].live
    case Realloc(i, _) => i < |a.blocks| && a.blocks[i].live
    case _ => true
  }

  function Step(a: Arena, capacity: nat, op: Op): Arena
    requires Allowed(a, op)
  {
    match op
    case Malloc(size) => MallocStep(a, capacity, size).0
    case Free(i) => ReleaseStep(a, i)
    case Realloc(i, size) => ReallocStep(a, capacity, i, size).0
    case FailAfter(n) => a.(countdown := n)
  }

  /** The states of a run, each operation allowed where it happens. */
  ghost predicate IsRun(states: seq<Arena>, ops: seq<Op>, capacity: nat) {
    && |states| == |ops| + 1
    && forall k :: 0 <= k < |ops| ==> Allowed(states[k], ops[k]) && states[k + 1] == Step(states[k], capacity, ops[k])
  }

  predicate Wraps(a: Arena, capacity: nat, op: Op)
    requires Allowed(a, op)
  {
    match op
    case Malloc(size) => MallocWraps(a, capacity, size)
    case Realloc(i, size) => ReallocWraps(a, capacity, i, size)
    case _ => false
  }

  lemma StepKeepsInv(a: Arena, capacity: nat, op: Op, outside: int)
    requires Allowed(a, op) && Inv(a, capacity, outside)
    ensures Inv(Step(a, capacity, op), capacity, outside) <==> !Wraps(a, capacity, op)
  {
    hide MallocStep, ReleaseStep, ReallocStep, MallocWraps, ReallocWraps;
    match op
    case Malloc(size) => MallocKeepsInv(a, capacity, size, outside);
    case Free(i) => ReleaseKeepsInv(a, capacity, i, outside);
    case Realloc(i, size) => ReallocKeepsInv(a, capacity, i, size, outside);
    case FailAfter(_) =>
  }

  /**
   In every state of a run the blocks tile the used part of the heap, which does not outgrow it, and
   the counter is right, if and only if no request of the run wraps around into the heap.
  */
  lemma {:induction false} RunKeepsInv(states: seq<Arena>, ops: seq<Op>, capacity: nat, outside: int, k: nat)
    requires IsRun(states, ops, capacity) && Inv(states[0], capacity, outside) && k < |states|
    ensures (forall j :: 0 <= j <= k ==> Inv(states[j], capacity, outside))
            <==> forall j :: 0 <= j < k ==> !Wraps(states[j], capacity, ops[j])
    decreases k
  {
    hide Inv, Step, Wraps;
    if k > 0 {
      RunKeepsInv(states, ops, capacity, outside, k - 1);
      assert states[k - 1 + 1] == Step(states[k - 1], capacity, ops[k - 1]);
      if Inv(states[k - 1], capacity, outside) {
        StepKeepsInv(states[k - 1], capacity, ops[k - 1], outside);
      }
    }
  }

  /** A dead block is stranded: it keeps its place through every later state of the run, below the top. */
  lemma {:induction false} DeadStaysPut(states: seq<Arena>, ops: seq<Op>, capacity: nat, k: nat, m: nat, i: nat)
    requires IsRun(states, ops, capacity) && Tiled(states[0].blocks) && k <= m < |states|
    requires i < |states[k].blocks| && !states[k].blocks[i].live
    ensures i < |states[m].blocks| && states[m].blocks[i] == states[k].blocks[i]
    ensures states[k].blocks[i].Limit() <= Top(states[m].blocks)
    decreases m - k
  {
    if k < m {
      DeadStaysPut(states, ops, capacity, k, m - 1, i);
      assert states[m - 1 + 1] == Step(states[m - 1], capacity, ops[m - 1]);
      DeadKept(states[m - 1], capacity, ops[m - 1], i);
    }
    RunKeepsTiled(states, ops, capacity, m);
    TiledLayout(states[m].blocks, i);
  }

  /** Each operation leaves every block where the one below it ends. */
  lemma StepKeepsTiled(a: Arena, capacity: nat, op: Op)
    requires Allowed(a, op) && Tiled(a.blocks)
    ensures Tiled(Step(a, capacity, op).blocks)
  {
    match op
    case Malloc(size) => MallocKeepsTiled(a, capacity, size);
    case Free(i) => TiledRelease(a.blocks, i);
    case Realloc(i, size) => {
      TiledRelease(a.blocks, i);
      MallocKeepsTiled(a, capacity, size);
      MallocKeepsTiled(ReleaseStep(a, i), capacity, size);
      MallocKeepsBlocks(a, capacity, size, i);
      TiledRelease(MallocStep(a, capacity, size).0.blocks, i);
    }
    case FailAfter(_) =>
  }

  lemma MallocKeepsTiled(a: Arena, capacity: nat, size: u64)
    requires Tiled(a.blocks)
    ensures Tiled(MallocStep(a, capacity, size).0.blocks)
  {
    TiledAppend(a.blocks, Block(Top(a.blocks), size, true));
  }

  lemma {:induction false} RunKeepsTiled(states: seq<Arena>, ops: seq<Op>, capacity: nat, k: nat)
    requires IsRun(states, ops, capacity) && Tiled(states[0].blocks) && k < |states|
    ensures Tiled(states[k].blocks)
    decreases k
  {
    hide Tiled, Step;
    if k > 0 {
      RunKeepsTiled(states, ops, capacity, k - 1);
      assert states[k - 1 + 1] == Step(states[k - 1], capacity, ops[k - 1]);
      StepKeepsTiled(states[k - 1], capacity, ops[k - 1]);
    }
  }

  lemma DeadKept(a: Arena, capacity: nat, op: Op, i: nat)
    requires Allowed(a, op) && i < |a.blocks| && !a.blocks[i].live
    ensures var a' := Step(a, capacity, op); i < |a'.blocks| && a'.blocks[i] == a.blocks[i]
  {
    hide Accepts, Top;
  }

  /** Whatever happened before, freeing the topmost block takes the top back to where that block starts. */
  lemma TopmostReclaimed(states: seq<Arena>, ops: seq<Op>, capacity: nat, k: nat)
    requires IsRun(states, ops, capacity) && Tiled(states[0].blocks) && k < |ops|
    requires states[k].blocks != [] && ops[k] == Op.Free(|states[k].blocks| - 1)
    ensures var n := |states[k].blocks| - 1;
            && states[k + 1].blocks == states[k].blocks[..n] && Top(states[k + 1].blocks) == states[k].blocks[n].base
            && states[k + 1].count == states[k].count - 1
  {
    RunKeepsTiled(states, ops, capacity, k);
    assert states[k + 1] == Step(states[k], capacity, ops[k]);
    TiledRelease(states[k].blocks, |states[k].blocks| - 1);
  }

  // ---------------------------------------------------------------- forced failures

  function Mallocs(a: Arena, capacity: nat, sizes: seq<u64>): Arena
    decreases |sizes|
  {
    if sizes == [] then a else MallocStep(Mallocs(a, capacity, sizes[..|sizes| - 1]), capacity, sizes[|sizes| - 1]).0
  }

  /** After a request to fail after n calls, n further calls are served as usual and every later one fails. */
  lemma {:induction false} FailsAfterCount(a: Arena, capacity: nat, sizes: seq<u64>, size: u64)
    requires a.countdown >= 0
    ensures var b := Mallocs(a, capacity, sizes);
            && b.countdown == (if |sizes| <= a.countdown then a.countdown - |sizes| else 0)
            && (|sizes| < a.countdown ==>
                  MallocStep(b, capacity, size).1 == MallocStep(b.(countdown := MALLOC_DONT_FAIL), capacity, size).1)
            && (|sizes| >= a.countdown ==> MallocStep(b, capacity, size) == (b, Null))
    decreases |sizes|
  {
    if sizes != [] {
      FailsAfterCount(a, capacity, sizes[..|sizes| - 1], size);
    }
  }

  /** The operation calls `unity_malloc`: an allocation does, and a reallocation to a larger size. */
  predicate Allocates(a: Arena, op: Op)
    requires Allowed(a, op)
  {
    match op
    case Malloc(_) => true
    case Realloc(i, size) => a.blocks[i].size < size
    case _ => false
  }

  /** The address that the operation returns, if it returns one. */
  function Result(a: Arena, capacity: nat, op: Op): Pointer
    requires Allowed(a, op)
  {
    match op
    case Malloc(size) => MallocStep(a, capacity, size).1
    case Realloc(i, size) => ReallocStep(a, capacity, i, size).1
    case _ => Null
  }

  /** How many of the operations from `k` up to `m` call `unity_malloc`. */
  ghost function Attempts(states: seq<Arena>, ops: seq<Op>, capacity: nat, k: nat, m: nat): nat
    requires IsRun(states, ops, capacity) && k <= m <= |ops|
    decreases m - k
  {
    if k == m then 0
    else Attempts(states, ops, capacity, k, m - 1) + if Allocates(states[m - 1], ops[m - 1]) then 1 else 0
  }

  /** Each call of `unity_malloc` lowers a positive countdown by one; nothing but `FailAfter` raises it. */
  lemma StepCountdown(a: Arena, capacity: nat, op: Op)
    requires Allowed(a, op) && !op.FailAfter?
    ensures Step(a, capacity, op).countdown ==
            if Allocates(a, op) && a.countdown != 0 && a.countdown != MALLOC_DONT_FAIL then a.countdown - 1
            else a.countdown
  {
    hide Accepts, Top;
  }

  /** An operation that calls `unity_malloc` fails at zero, and otherwise does not notice the countdown. */
  lemma StepResult(a: Arena, capacity: nat, op: Op)
    requires Allowed(a, op) && Allocates(a, op)
    ensures var free := a.(countdown := MALLOC_DONT_FAIL);
            Result(a, capacity, op) == if a.countdown == 0 then Null else Result(free, capacity, op)
  {
    hide Accepts, Top;
  }

  /**
   After a request to fail after n calls, whatever is allocated, resized and released in between:
   n calls of `unity_malloc` are served as if nothing had been requested, and every later one fails,
   until the next request.
  */
  lemma {:induction false} RunFailsAfterCount(states: seq<Arena>, ops: seq<Op>, capacity: nat, k: nat, m: nat)
    requires IsRun(states, ops, capacity) && k <= m <= |ops| && states[k].countdown >= 0
    requires forall j :: k <= j < m ==> !ops[j].FailAfter?
    ensures var n, done := states[k].countdown, Attempts(states, ops, capacity, k, m);
            && states[m].countdown == (if done <= n then n - done else 0)
            && (m < |ops| && Allocates(states[m], ops[m]) ==>
                  var free := states[m].(countdown := MALLOC_DONT_FAIL);
                  Result(states[m], capacity, ops[m]) == if done < n then Result(free, capacity, ops[m]) else Null)
    decreases m - k
  {
    hide Step, Result, Allocates;
    if k < m {
      RunFailsAfterCount(states, ops, capacity, k, m - 1);
      assert states[m - 1 + 1] == Step(states[m - 1], capacity, ops[m - 1]);
      StepCountdown(states[m - 1], capacity, ops[m - 1]);
    }
    if m < |ops| && Allocates(states[m], ops[m]) {
      StepResult(states[m], capacity, ops[m]);
    }
  }

  /** From the request itself: `FailAfter(n)` at step `k` lets exactly `n` calls of `unity_malloc` through. */
  lemma RequestFailsAfterCount(states: seq<Arena>, ops: seq<Op>, capacity: nat, n: nat, k: nat, m: nat)
    requires IsRun(states, ops, capacity) && k < m <= |ops| && ops[k] == FailAfter(n)
    requires forall j :: k < j < m ==> !ops[j].FailAfter?
    ensures states[k + 1] == states[k].(countdown := n)
    ensures var done := Attempts(states, ops, capacity, k + 1, m);
            && states[m].countdown == (if done <= n then n - done else 0)
            && (m < |ops| && Allocates(states[m], ops[m]) ==>
                  var free := states[m].(countdown := MALLOC_DONT_FAIL);
                  Result(states[m], capacity, ops[m]) == if done < n then Result(free, capacity, ops[m]) else Null)
  {
    hide Result, Allocates;
    assert states[k + 1] == Step(states[k], capacity, ops[k]);
    RunFailsAfterCount(states, ops, capacity, k + 1, m);
  }

  // ---------------------------------------------------------------- LIFO reclamation

  /** Uses of the heap that free in reverse order: a block, what is done while it is held, what follows. */
  datatype Script = Done | Use(size: u64, inner: Script, next: Script)

  /** Run a script: allocate, do the inner part, free the block if there is one, go on. */
  function Play(a: Arena, capacity: nat, s: Script): Arena
    decreases s
  {
    match s
    case Done => a
    case Use(size, inner, next) =>
      var (a1, p) := MallocStep(a, capacity, size);
      var a2 := Play(a1, capacity, inner);
      var a3 := if p.At? && |a.blocks| < |a2.blocks| then ReleaseStep(a2, |a.blocks|) else a2;
      Play(a3, capacity, next)
  }

  /** Any properly nested use of the heap, whatever succeeds or fails, returns it to where it was. */
  lemma {:induction false} NestedUseRestores(a: Arena, capacity: nat, s: Script)
    ensures Play(a, capacity, s).blocks == a.blocks && Play(a, capacity, s).count == a.count
    decreases s
  {
    match s
    case Done =>
    case Use(size, inner, next) =>
      var (a1, p) := MallocStep(a, capacity, size);
      NestedUseRestores(a1, capacity, inner);
      var a2 := Play(a1, capacity, inner);
      var a3 := if p.At? && |a.blocks| < |a2.blocks| then ReleaseStep(a2, |a.blocks|) else a2;
      assert p.At? ==> a1.blocks[..|a.blocks|] == a.blocks;
      NestedUseRestores(a3, capacity, next);
  }

  // ---------------------------------------------------------------- realloc

  /** Shrinking returns the same address, and so does growing the topmost block while it fits. */
  lemma ReallocSameAddress(a: Arena, capacity: nat, i: nat, size: u64, outside: int)
    requires Inv(a, capacity, outside) && i < |a.blocks| && a.blocks[i].live && size > 0
    requires size <= a.blocks[i].size || (GrowsInPlace(a, capacity, i, size) && a.countdown != 0)
    ensures ReallocStep(a, capacity, i, size).1 == At(a.blocks[i].Data())
  {
    ReleaseKeepsInv(a, capacity, i, outside);
  }

  /** Where the result of a reallocation may lie: in place, at the end of a larger last block, or on top. */
  predicate LandsAt(blocks: seq<Block>, capacity: nat, i: nat, size: nat, p: Pointer)
    requires i < |blocks|
  {
    var b := blocks[i];
    p.At? ==>
      if size <= b.size then p == At(b.Data())
      else
        || (i == |blocks| - 1 && p == At(b.Data()) && Fits(b.base, size, capacity))
        || (p == At(Top(blocks) + GUARD_SIZE) && Fits(Top(blocks), size, capacity))
  }

  lemma ReallocLands(a: Arena, capacity: nat, i: nat, size: u64, outside: int)
    requires Inv(a, capacity, outside) && i < |a.blocks| && !ReallocWraps(a, capacity, i, size)
    ensures LandsAt(a.blocks, capacity, i, size, ReallocStep(a, capacity, i, size).1)
  {
    TiledRelease(a.blocks, i);
    var released := ReleaseStep(a, i);
    if a.blocks[i].size < size {
      if GrowsInPlace(a, capacity, i, size) {
        assert Top(released.blocks) == a.blocks[i].base <= capacity by {
          TiledLayout(a.blocks, i);
          ExtentPositive(a.blocks[i].size);
        }
        MallocFits(released, capacity, size);
        MallocResult(released, capacity, size);
      } else {
        MallocFits(a, capacity, size);
        MallocResult(a, capacity, size);
      }
    }
  }

  /**
   A NULL result for a non-zero size leaves every block as it was, except in one case: a block that
   would be grown in place while the failure countdown stands at zero is released first.
  */
  lemma ReallocNullKeepsBlocks(a: Arena, capacity: nat, i: nat, size: u64)
    requires Tiled(a.blocks) && i < |a.blocks| && size > 0 && ReallocStep(a, capacity, i, size).1.Null?
    ensures ReallocStep(a, capacity, i, size).0.blocks == a.blocks
            <==> !(GrowsInPlace(a, capacity, i, size) && a.countdown == 0)
  {
    TiledRelease(a.blocks, i);
    if GrowsInPlace(a, capacity, i, size) && a.countdown == 0 {
      assert |ReallocStep(a, capacity, i, size).0.blocks| == |a.blocks| - 1;
    }
  }

  /** That case occurs on the default heap: the client is told NULL, and its only block is gone. */
  lemma ReallocNullLosesBlock()
    ensures var a := Arena([Block(0, 8, true)], 1, 0);
            Inv(a, 256, 0) && ReallocStep(a, 256, 0, 9) == (Arena([], 0, 0), Null)
  {
    var b := Block(0, 8, true);
    assert [b][..0] == [];
    assert TotalSize(9) == 32;
    assert Live([b]) == 1 && Top([b]) == 32;
  }
}
