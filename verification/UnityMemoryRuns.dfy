/**
 Runs of the allocator code under a client that writes only into its own blocks: whatever is
 allocated, released, resized or moved, every byte keeps the value that the client gave it, and no
 operation reports an overrun.
*/
module UnityMemoryRuns {
  import opened Words
  import opened UnityMemorySpec
  import opened UnityMemory

  // ---------------------------------------------------------------- the client's view

  datatype Cell = Unknown | Known(value: byte)

  /** The layout, and what the client knows of the data bytes of each block. */
  datatype RawView = RawView(arena: Arena, cells: seq<seq<Cell>>)

  predicate Shaped(v: RawView) {
    && |v.cells| == |v.arena.blocks|
    && forall i :: 0 <= i < |v.cells| ==> |v.cells[i]| == v.arena.blocks[i].size
  }

  type View = v: RawView | Shaped(v) witness RawView(Arena([], 0, MALLOC_DONT_FAIL), [])

  datatype Call =
    | Malloc(size: u64)
    | Calloc(num: u64, size: u64)
    | Free(block: nat)
    | Realloc(block: nat, size: u64)
    | Write(block: nat, index: nat, value: byte)
    | FailAfter(count: int)
    | FreeNull
    | ReallocNull(size: u64)

  function Product(num: u64, size: u64): u64 {
    num * size % TWO_TO_THE_64
  }

  predicate Held(v: View, i: nat) {
    i < |v.arena.blocks| && v.arena.blocks[i].live
  }

  /** The client uses blocks that it holds, writes inside them, and asks for sizes that do not wrap around. */
  predicate Allowed(v: View, capacity: nat, call: Call) {
    match call
    case Malloc(size) => !MallocWraps(v.arena, capacity, size)
    case Calloc(num, size) => !MallocWraps(v.arena, capacity, Product(num, size))
    case Free(i) => Held(v, i)
    case Realloc(i, size) => Held(v, i) && !ReallocWraps(v.arena, capacity, i, size)
    case Write(i, k, _) => Held(v, i) && k < v.arena.blocks[i].size
    case FailAfter(_) => true
    case FreeNull => true
    case ReallocNull(size) => !MallocWraps(v.arena, capacity, size)
  }

  function Blank(n: nat): (cells: seq<Cell>)
    ensures |cells| == n && forall k :: 0 <= k < n ==> cells[k] == Unknown
  {
    seq(n, _ => Unknown)
  }

  function AllZero(n: nat): (cells: seq<Cell>)
    ensures |cells| == n && forall k :: 0 <= k < n ==> cells[k] == Known(0)
  {
    seq(n, _ => Known(0))
  }

  function Grown(v: View, capacity: nat, cells: seq<Cell>): View
    requires |cells| < TWO_TO_THE_64
  {
    var (a, p) := MallocStep(v.arena, capacity, |cells|);
    RawView(a, if p.Null? then v.cells else v.cells + [cells])
  }

  function Released(v: View, i: nat): View
    requires i < |v.cells|
  {
    RawView(ReleaseStep(v.arena, i), if i == |v.cells| - 1 then v.cells[..i] else v.cells)
  }

  /** A reallocation carries what is known of the block along; what it gains is unknown. */
  function Resized(v: View, capacity: nat, i: nat, size: u64): View
    requires i < |v.cells|
  {
    var b := v.arena.blocks[i];
    if size == 0 then Released(v, i)
    else if size <= b.size then v
    else
      var cells := v.cells[i] + Blank(size - b.size);
      if GrowsInPlace(v.arena, capacity, i, size) then Grown(Released(v, i), capacity, cells)
      else
        var w := Grown(v, capacity, cells);
        if |w.cells| == |v.cells| then w else Released(w, i)
  }

  function ViewStep(v: View, capacity: nat, call: Call): View
    requires Allowed(v, capacity, call)
  {
    match call
    case Malloc(size) => Grown(v, capacity, Blank(size))
    case Calloc(num, size) => Grown(v, capacity, AllZero(Product(num, size)))
    case Free(i) => Released(v, i)
    case Realloc(i, size) => Resized(v, capacity, i, size)
    case Write(i, k, x) => RawView(v.arena, v.cells[i := v.cells[i][k := Known(x)]])
    case FailAfter(n) => RawView(v.arena.(countdown := n), v.cells)
    case FreeNull => v
    case ReallocNull(size) => Grown(v, capacity, Blank(size))
  }

  /** The views of a session, each call allowed where it happens. */
  ghost predicate IsSession(views: seq<View>, calls: seq<Call>, capacity: nat) {
    && |views| == |calls| + 1
    && forall k :: 0 <= k < |calls| ==>
         Allowed(views[k], capacity, calls[k]) && views[k + 1] == ViewStep(views[k], capacity, calls[k])
  }

  // ---------------------------------------------------------------- what the client knows

  /** The call does not concern byte `j` of block `i`. */
  predicate Spares(call: Call, i: nat, j: nat) {
    match call
    case Free(k) => k != i
    case Realloc(k, _) => k != i
    case Write(k, l, _) => k != i || l != j
    case _ => true
  }

  lemma GrownKeeps(v: View, capacity: nat, cells: seq<Cell>, i: nat)
    requires |cells| < TWO_TO_THE_64
    requires i < |v.cells|
    ensures var w := Grown(v, capacity, cells);
            i < |w.cells| && w.arena.blocks[i] == v.arena.blocks[i] && w.cells[i] == v.cells[i]
  {
  }

  lemma ReleasedKeeps(v: View, i: nat, k: nat)
    requires i < |v.cells| && k < |v.cells| && Held(v, k) && i != k
    requires i == |v.cells| - 1 ==> k < i
    ensures var w := Released(v, i);
            k < |w.cells| && w.arena.blocks[k] == v.arena.blocks[k] && w.cells[k] == v.cells[k]
  {
  }

  lemma SparedStep(v: View, capacity: nat, call: Call, i: nat, j: nat)
    requires Allowed(v, capacity, call) && Held(v, i) && j < |v.cells[i]| && Spares(call, i, j)
    ensures var w := ViewStep(v, capacity, call);
            && i < |w.cells| && j < |w.cells[i]|
            && w.arena.blocks[i] == v.arena.blocks[i] && w.cells[i][j] == v.cells[i][j]
  {
    hide MallocStep, ReleaseStep, MallocWraps, ReallocWraps, Top, GrowsInPlace, Grown, Released;
    match call
    case Malloc(size) => GrownKeeps(v, capacity, Blank(size), i);
    case Calloc(num, size) => GrownKeeps(v, capacity, AllZero(Product(num, size)), i);
    case Free(k) => ReleasedKeeps(v, k, i);
    case Realloc(k, size) => {
      ReleasedKeeps(v, k, i);
      if size > v.arena.blocks[k].size {
        var cells := v.cells[k] + Blank(size - v.arena.blocks[k].size);
        GrownKeeps(v, capacity, cells, i);
        GrownKeeps(Released(v, k), capacity, cells, i);
        var w := Grown(v, capacity, cells);
        if |w.cells| != |v.cells| {
          GrownKeeps(v, capacity, cells, k);
          GrownLonger(v, capacity, cells);
          ReleasedKeeps(w, k, i);
        }
      }
    }
    case Write(_, _, _) =>
    case FailAfter(_) =>
    case FreeNull =>
    case ReallocNull(size) => GrownKeeps(v, capacity, Blank(size), i);
  }

  lemma GrownLonger(v: View, capacity: nat, cells: seq<Cell>)
    requires |cells| < TWO_TO_THE_64
    ensures var w := Grown(v, capacity, cells); |w.cells| == |v.cells| || |w.cells| == |v.cells| + 1
  {
  }

  /** What the client writes it knows until it writes the same byte again or hands the block back. */
  lemma {:induction false} WrittenStays(views: seq<View>, calls: seq<Call>, capacity: nat,
                                        k: nat, m: nat, i: nat, j: nat, x: byte)
    requires IsSession(views, calls, capacity) && k < m <= |calls| && calls[k] == Write(i, j, x)
    requires forall l :: k < l < m ==> Spares(calls[l], i, j)
    ensures Held(views[m], i) && j < |views[m].cells[i]| && views[m].cells[i][j] == Known(x)
    ensures views[m].arena.blocks[i] == views[k].arena.blocks[i]
    decreases m
  {
    hide MallocStep, ReleaseStep, MallocWraps, ReallocWraps, Top, Spares;
    var v := views[m - 1];
    assert views[m - 1 + 1] == ViewStep(v, capacity, calls[m - 1]);
    if k < m - 1 {
      hide Allowed, ViewStep;
      WrittenStays(views, calls, capacity, k, m - 1, i, j, x);
      SparedStep(v, capacity, calls[m - 1], i, j);
    }
  }

  /** The block in which a reallocation leaves the data, if it leaves any. */
  function Landing(v: View, capacity: nat, i: nat, size: u64): nat
    requires i < |v.cells|
  {
    if size <= v.arena.blocks[i].size || GrowsInPlace(v.arena, capacity, i, size) then i else |v.cells|
  }

  /** A reallocation that returns an address takes what the client knows to the block at that address. */
  lemma ReallocFollows(v: View, capacity: nat, i: nat, size: u64, j: nat)
    requires Tiled(v.arena.blocks) && Held(v, i) && size > 0 && j < size && j < |v.cells[i]|
    requires ReallocStep(v.arena, capacity, i, size).1.At?
    ensures var w, n := Resized(v, capacity, i, size), Landing(v, capacity, i, size);
            && Held(w, n) && ReallocStep(v.arena, capacity, i, size).1 == At(w.arena.blocks[n].Data())
            && j < |w.cells[n]| && w.cells[n][j] == v.cells[i][j]
  {
    hide Accepts, Extent;
    assert Top(v.arena.blocks[..i]) == v.arena.blocks[i].base by {
      TiledRelease(v.arena.blocks, i);
    }
  }

  /** The layout of the view is the one the specification of `unity_realloc` gives. */
  lemma ResizedArena(v: View, capacity: nat, i: nat, size: u64)
    requires i < |v.cells|
    ensures Resized(v, capacity, i, size).arena == ReallocStep(v.arena, capacity, i, size).0
  {
    hide Accepts, Top;
  }

  // Following one byte through a session.

  /** How the client refers to a block: where it is in the layout, and the address that it was given last. */
  datatype Handle = Handle(block: nat, mem: Pointer)

  ghost predicate Good(v: View, at: Handle) {
    Held(v, at.block) && at.mem == At(v.arena.blocks[at.block].Data())
  }

  /** The client knows that byte `j` at the handle's address is `x`. */
  ghost predicate KnownAt(v: View, at: Handle, j: nat, x: byte) {
    Good(v, at) && j < |v.cells[at.block]| && v.cells[at.block][j] == Known(x)
  }

  /** A reallocation of the block that returns an address replaces the client's handle. */
  function Follow(v: View, capacity: nat, call: Call, at: Handle): Handle {
    if call.Realloc? && call.block == at.block < |v.cells| then
      var p := ReallocStep(v.arena, capacity, at.block, call.size).1;
      if p.At? then Handle(Landing(v, capacity, at.block, call.size), p) else at
    else at
  }

  /**
   The call leaves byte `j` of the block alone: it does not concern it, or it resizes the block with
   the byte inside the new size, or it fails to resize the block and leaves it where it is.
  */
  predicate Keeps(v: View, capacity: nat, call: Call, at: Handle, j: nat) {
    || Spares(call, at.block, j)
    || (call.Realloc? && call.block == at.block < |v.cells| && call.size > 0
        && if ReallocStep(v.arena, capacity, at.block, call.size).1.At? then j < call.size
           else !GrowsInPlace(v.arena, capacity, at.block, call.size))
  }

  /** The handle at state `m` of what was block `i` at state `k`. */
  ghost function Home(views: seq<View>, calls: seq<Call>, capacity: nat, i: nat, k: nat, m: nat): Handle
    requires IsSession(views, calls, capacity) && k <= m <= |calls| && i < |views[k].cells|
    decreases m - k
  {
    if k == m then Handle(i, At(views[k].arena.blocks[i].Data()))
    else Follow(views[m - 1], capacity, calls[m - 1], Home(views, calls, capacity, i, k, m - 1))
  }

  lemma ReallocNullStays(v: View, capacity: nat, i: nat, size: u64)
    requires i < |v.cells| && size > 0 && !GrowsInPlace(v.arena, capacity, i, size)
    requires ReallocStep(v.arena, capacity, i, size).1.Null?
    ensures var w := Resized(v, capacity, i, size); w.cells == v.cells && w.arena.blocks == v.arena.blocks
  {
    hide Accepts, Top;
  }

  lemma FollowedStep(v: View, capacity: nat, call: Call, at: Handle, j: nat, x: byte)
    requires Allowed(v, capacity, call) && Tiled(v.arena.blocks)
    requires KnownAt(v, at, j, x) && Keeps(v, capacity, call, at, j)
    ensures KnownAt(ViewStep(v, capacity, call), Follow(v, capacity, call, at), j, x)
  {
    hide ReallocStep, Resized, Grown, Released, MallocWraps, ReallocWraps, GrowsInPlace, Tiled;
    if Spares(call, at.block, j) {
      SparedStep(v, capacity, call, at.block, j);
    } else if ReallocStep(v.arena, capacity, at.block, call.size).1.At? {
      ReallocFollows(v, capacity, at.block, call.size, j);
    } else {
      ReallocNullStays(v, capacity, at.block, call.size);
    }
  }

  lemma ViewStepTiled(v: View, capacity: nat, call: Call)
    requires Allowed(v, capacity, call) && Tiled(v.arena.blocks)
    ensures Tiled(ViewStep(v, capacity, call).arena.blocks)
  {
    hide Tiled, MallocStep, ReleaseStep, ReallocStep, Resized, MallocWraps, ReallocWraps;
    match call
    case Malloc(size) => MallocKeepsTiled(v.arena, capacity, size);
    case Calloc(num, size) => MallocKeepsTiled(v.arena, capacity, Product(num, size));
    case Free(i) => StepKeepsTiled(v.arena, capacity, Op.Free(i));
    case Realloc(i, size) => {
      ResizedArena(v, capacity, i, size);
      StepKeepsTiled(v.arena, capacity, Op.Realloc(i, size));
    }
    case Write(_, _, _) =>
    case FailAfter(_) =>
    case FreeNull =>
    case ReallocNull(size) => MallocKeepsTiled(v.arena, capacity, size);
  }

  lemma {:induction false} SessionTiled(views: seq<View>, calls: seq<Call>, capacity: nat, k: nat)
    requires IsSession(views, calls, capacity) && Tiled(views[0].arena.blocks) && k < |views|
    ensures Tiled(views[k].arena.blocks)
    decreases k
  {
    hide Tiled, Allowed, ViewStep;
    if k > 0 {
      SessionTiled(views, calls, capacity, k - 1);
      assert views[k - 1 + 1] == ViewStep(views[k - 1], capacity, calls[k - 1]);
      ViewStepTiled(views[k - 1], capacity, calls[k - 1]);
    }
  }

  /** The call `k` writes `x` to byte `j` of block `i`, and every later call up to `m` leaves that byte alone. */
  ghost predicate LastWrite(views: seq<View>, calls: seq<Call>, capacity: nat, k: nat, m: nat, i: nat, j: nat, x: byte)
    requires IsSession(views, calls, capacity)
  {
    && k < m <= |calls| && calls[k] == Write(i, j, x) && i < |views[k].cells|
    && forall l :: k < l < m ==>
         Keeps(views[l], capacity, calls[l], Home(views, calls, capacity, i, k, l), j)
  }

  /**
   Over any session, through every resizing and move of its block, a byte that the client wrote stays
   known; it belongs to the block at the address that the client was given last.
  */
  lemma {:induction false} WrittenFollows(views: seq<View>, calls: seq<Call>, capacity: nat,
                                          k: nat, m: nat, i: nat, j: nat, x: byte)
    requires IsSession(views, calls, capacity) && Tiled(views[0].arena.blocks)
    requires LastWrite(views, calls, capacity, k, m, i, j, x)
    ensures KnownAt(views[m], Home(views, calls, capacity, i, k, m), j, x)
    decreases m
  {
    hide IsSession, Allowed, ViewStep, Follow, Keeps, Tiled, KnownAt, LastWrite, Home;
    LastWriteUpTo(views, calls, capacity, k, m, i, j, x);
    var v, call, at := views[m - 1], calls[m - 1], Home(views, calls, capacity, i, k, m - 1);
    if k < m - 1 {
      WrittenFollows(views, calls, capacity, k, m - 1, i, j, x);
      SessionTiled(views, calls, capacity, m - 1);
      FollowedStep(v, capacity, call, at, j, x);
    } else {
      WriteKnown(v, capacity, i, j, x);
    }
  }

  lemma LastWriteUpTo(views: seq<View>, calls: seq<Call>, capacity: nat, k: nat, m: nat, i: nat, j: nat, x: byte)
    requires IsSession(views, calls, capacity) && LastWrite(views, calls, capacity, k, m, i, j, x)
    ensures k < m <= |calls| && calls[k] == Write(i, j, x) && i < |views[k].cells|
    ensures |views| == |calls| + 1 && Allowed(views[m - 1], capacity, calls[m - 1])
    ensures views[m] == ViewStep(views[m - 1], capacity, calls[m - 1])
    ensures Home(views, calls, capacity, i, k, k) == Handle(i, At(views[k].arena.blocks[i].Data()))
    ensures var at := Home(views, calls, capacity, i, k, m - 1);
            && Home(views, calls, capacity, i, k, m) == Follow(views[m - 1], capacity, calls[m - 1], at)
            && (k < m - 1 ==> && LastWrite(views, calls, capacity, k, m - 1, i, j, x)
                              && Keeps(views[m - 1], capacity, calls[m - 1], at, j))
  {
    hide Allowed, ViewStep, Keeps, Follow;
    assert views[m - 1 + 1] == ViewStep(views[m - 1], capacity, calls[m - 1]);
  }

  lemma WriteKnown(v: View, capacity: nat, i: nat, j: nat, x: byte)
    requires i < |v.cells| && Allowed(v, capacity, Write(i, j, x))
    ensures var at, call := Handle(i, At(v.arena.blocks[i].Data())), Write(i, j, x);
            var w := ViewStep(v, capacity, call);
            Follow(v, capacity, call, at) == at && KnownAt(w, at, j, x)
  {
  }

  // ---------------------------------------------------------------- the heap agrees with it

  /** The block is intact and holds every byte that the client knows. */
  ghost predicate BlockHolds(h: seq<byte>, b: Block, cells: seq<Cell>) {
    && b.Limit() <= |h| && Intact(h, b) && |cells| == b.size
    && forall k :: 0 <= k < |cells| && cells[k].Known? ==> h[b.Data() + k] == cells[k].value
  }

  ghost predicate Holds(h: seq<byte>, v: View) {
    forall i :: 0 <= i < |v.cells| && v.arena.blocks[i].live ==> BlockHolds(h, v.arena.blocks[i], v.cells[i])
  }

  lemma CarriedBytes(h: seq<byte>, h': seq<byte>, from: nat, n: nat)
    requires Carried(h, h', from, from, n)
    ensures forall p :: from <= p < from + n ==> h'[p] == h[p]
  {
    forall p | from <= p < from + n
      ensures h'[p] == h[p]
    {
      assert h'[from..from + n][p - from] == h[from..from + n][p - from];
    }
  }

  /** A block whose bytes are carried over, markers included, still holds what it held. */
  lemma CarriedHolds(h: seq<byte>, h': seq<byte>, b: Block, cells: seq<Cell>)
    requires BlockHolds(h, b, cells) && |h'| == |h| && Carried(h, h', b.base, b.base, Extent(b.size))
    ensures BlockHolds(h', b, cells)
  {
    CarriedBytes(h, h', b.base, Extent(b.size));
    ExtentPositive(b.size);
    hide Extent, Carried;
    Le64Kept(h, h', b.base + 8);
    SliceKept(h, h', b.Data() + b.size, b.Data() + b.size + 4);
  }

  lemma Le64Kept(h: seq<byte>, h': seq<byte>, at: nat)
    requires at + 8 <= |h| == |h'| && forall p :: at <= p < at + 8 ==> h'[p] == h[p]
    ensures Le64(h', at) == Le64(h, at)
  {
    SliceKept(h, h', at, at + 8);
    Le64Local(h, h', at);
  }

  /** A new block on top, and nothing written below it. */
  lemma GrownHolds(h: seq<byte>, h': seq<byte>, v: View, capacity: nat, cells: seq<Cell>)
    requires |cells| < TWO_TO_THE_64
    requires Tiled(v.arena.blocks) && Top(v.arena.blocks) <= |h| == |h'| && Holds(h, v)
    requires MallocStep(v.arena, capacity, |cells|).1.At?
    requires forall k :: 0 <= k < Top(v.arena.blocks) ==> h'[k] == h[k]
    requires BlockHolds(h', Block(Top(v.arena.blocks), |cells|, true), cells)
    ensures Holds(h', Grown(v, capacity, cells))
  {
    var blocks := v.arena.blocks;
    MallocResult(v.arena, capacity, |cells|);
    hide Extent, BlockHolds, Carried, MallocStep, Top;
    forall i | 0 <= i < |v.cells| && blocks[i].live
      ensures BlockHolds(h', blocks[i], v.cells[i])
    {
      assert Carried(h, h', blocks[i].base, blocks[i].base, Extent(blocks[i].size)) by {
        BlocksBelowKept(h, h', blocks, |blocks|, FloorOf(blocks, |blocks|));
      }
      CarriedHolds(h, h', blocks[i], v.cells[i]);
    }
  }

  lemma GrownNotHolds(h: seq<byte>, v: View, capacity: nat, cells: seq<Cell>)
    requires |cells| < TWO_TO_THE_64
    requires Holds(h, v) && MallocStep(v.arena, capacity, |cells|).1.Null?
    ensures Holds(h, Grown(v, capacity, cells))
  {
    hide BlockHolds;
  }

  lemma ReleasedHolds(h: seq<byte>, v: View, i: nat)
    requires i < |v.cells| && Holds(h, v)
    ensures Holds(h, Released(v, i))
  {
    hide BlockHolds;
  }

  lemma BlankHolds(h: seq<byte>, base: nat, size: u64)
    requires base + Extent(size) <= |h|
    ensures BlockHolds(Stamped(h, base, size), Block(base, size, true), Blank(size))
  {
    hide Stamped, Intact;
    StampedIntact(h, base, size);
  }

  lemma ZeroHolds(h: seq<byte>, base: nat, size: u64)
    requires base + Extent(size) <= |h| && base + GUARD_SIZE + size <= |h|
    ensures BlockHolds(Spliced(Stamped(h, base, size), base + GUARD_SIZE, Zeros(size)),
                       Block(base, size, true), AllZero(size))
  {
    hide Stamped, Intact, Spliced, Extent;
    StampedIntact(h, base, size);
    DataWriteKeepsIntact(Stamped(h, base, size), Block(base, size, true), base + GUARD_SIZE, Zeros(size));
  }

  ghost predicate OthersHeld(h: seq<byte>, v: View, i: nat) {
    forall j :: 0 <= j < |v.cells| && j != i && v.arena.blocks[j].live ==>
      BlockHolds(h, v.arena.blocks[j], v.cells[j])
  }

  lemma OthersHold(h: seq<byte>, h': seq<byte>, v: View, i: nat)
    requires i < |v.cells| && Holds(h, v) && |h'| == |h| && OthersKept(h, h', v.arena.blocks, i)
    ensures OthersHeld(h', v, i)
  {
    hide BlockHolds, Carried, Extent;
    forall j | 0 <= j < |v.cells| && j != i && v.arena.blocks[j].live
      ensures BlockHolds(h', v.arena.blocks[j], v.cells[j])
    {
      CarriedHolds(h, h', v.arena.blocks[j], v.cells[j]);
    }
  }

  /** The larger block that a reallocation returns holds what the old one held. */
  lemma LargerHolds(h: seq<byte>, h': seq<byte>, b: Block, cells: seq<Cell>, size: nat, data: nat)
    requires BlockHolds(h, b, cells) && b.size < size && |h'| == |h|
    requires Carried(h, h', b.Data(), data, b.size) && Marked(h', data, size)
    ensures BlockHolds(h', Block(data - GUARD_SIZE, size, true), cells + Blank(size - b.size))
  {
    ExtentPositive(size);
    hide Extent, Intact;
    forall k | 0 <= k < |cells| && cells[k].Known?
      ensures h'[data + k] == cells[k].value
    {
      assert h'[data..data + b.size][k] == h[b.Data()..b.Data() + b.size][k];
    }
  }

  /** After a reallocation the heap holds what the client then knows, wherever the block went. */
  lemma ResizedHolds(h: seq<byte>, h': seq<byte>, v: View, capacity: nat, i: nat, size: u64)
    requires Tiled(v.arena.blocks) && Held(v, i) && Holds(h, v)
    requires Preserved(h, h', v.arena.blocks, i, size, ReallocStep(v.arena, capacity, i, size).1)
    requires Rewritten(h, h', v.arena.blocks[i], size, ReallocStep(v.arena, capacity, i, size).1)
    ensures Holds(h', Resized(v, capacity, i, size))
  {
    hide Holds, BlockHolds, OthersHeld, ReallocStep, Preserved, Rewritten, Tiled;
    var b, p := v.arena.blocks[i], ReallocStep(v.arena, capacity, i, size).1;
    if size <= b.size {
      UnchangedHeap(h, h', b, size, p);
      ReleasedHolds(h, v, i);
    } else if p.Null? {
      UnchangedHeap(h, h', b, size, p);
      NotResizedHolds(h, v, capacity, i, size);
    } else {
      EnlargedHolds(h, h', v, i, size, p.offset);
      LandedHolds(h', v, capacity, i, size, p.offset - GUARD_SIZE);
    }
  }

  lemma NotResizedHolds(h: seq<byte>, v: View, capacity: nat, i: nat, size: u64)
    requires i < |v.cells| && v.arena.blocks[i].size < size && Holds(h, v)
    requires ReallocStep(v.arena, capacity, i, size).1.Null?
    ensures Holds(h, Resized(v, capacity, i, size))
  {
    hide Holds, Fits, Top;
    var cells := v.cells[i] + Blank(size - v.arena.blocks[i].size);
    if GrowsInPlace(v.arena, capacity, i, size) {
      ReleasedHolds(h, v, i);
      GrownNotHolds(h, Released(v, i), capacity, cells);
    } else {
      GrownNotHolds(h, v, capacity, cells);
    }
  }

  lemma EnlargedParts(h: seq<byte>, h': seq<byte>, blocks: seq<Block>, i: nat, size: nat, data: nat)
    requires i < |blocks| && blocks[i].size < size && Preserved(h, h', blocks, i, size, At(data))
    ensures |h'| == |h| && Carried(h, h', blocks[i].Data(), data, blocks[i].size)
    ensures GUARD_SIZE <= data && Marked(h', data, size) && OthersKept(h, h', blocks, i)
  {
    hide Carried, OthersKept, Intact, Extent;
  }

  /** The enlarged block and all the others. */
  lemma EnlargedHolds(h: seq<byte>, h': seq<byte>, v: View, i: nat, size: nat, data: nat)
    requires Held(v, i) && Holds(h, v) && v.arena.blocks[i].size < size
    requires Preserved(h, h', v.arena.blocks, i, size, At(data))
    ensures GUARD_SIZE <= data && OthersHeld(h', v, i)
    ensures BlockHolds(h', Block(data - GUARD_SIZE, size, true), v.cells[i] + Blank(size - v.arena.blocks[i].size))
  {
    hide BlockHolds, Carried, Marked, OthersKept, OthersHeld, Preserved;
    EnlargedParts(h, h', v.arena.blocks, i, size, data);
    LargerHolds(h, h', v.arena.blocks[i], v.cells[i], size, data);
    OthersHold(h, h', v, i);
  }

  lemma LandedHolds(h: seq<byte>, v: View, capacity: nat, i: nat, size: u64, base: nat)
    requires i < |v.cells| && v.arena.blocks[i].size < size && OthersHeld(h, v, i)
    requires ReallocStep(v.arena, capacity, i, size).1 == At(base + GUARD_SIZE)
    requires BlockHolds(h, Block(base, size, true), v.cells[i] + Blank(size - v.arena.blocks[i].size))
    ensures Holds(h, Resized(v, capacity, i, size))
  {
    hide BlockHolds, OthersHeld, MallocStep, ReleaseStep, Grown, Released, Holds, GrowsInPlace, Resized, ReallocStep;
    ResizedWays(v, capacity, i, size);
    var cells := v.cells[i] + Blank(size - v.arena.blocks[i].size);
    if GrowsInPlace(v.arena, capacity, i, size) {
      GrowsTopmost(v.arena, capacity, i, size);
      RegrownHolds(h, v, capacity, i, cells);
    } else {
      MovedHolds(h, v, capacity, i, cells);
    }
  }

  lemma GrowsTopmost(a: Arena, capacity: nat, i: nat, size: u64)
    requires i < |a.blocks| && GrowsInPlace(a, capacity, i, size)
    ensures i == |a.blocks| - 1
  {
  }

  /** The two ways to a larger block, in the layout machine and in the view. */
  lemma ResizedWays(v: View, capacity: nat, i: nat, size: u64)
    requires i < |v.cells| && v.arena.blocks[i].size < size
    ensures var p, cells := ReallocStep(v.arena, capacity, i, size).1,
                            v.cells[i] + Blank(size - v.arena.blocks[i].size);
            if GrowsInPlace(v.arena, capacity, i, size) then
              && p == MallocStep(ReleaseStep(v.arena, i), capacity, size).1
              && Resized(v, capacity, i, size) == Grown(Released(v, i), capacity, cells)
            else
              var w := Grown(v, capacity, cells);
              && p == MallocStep(v.arena, capacity, size).1
              && (|w.cells| != |v.cells| ==> i < |w.cells| && Resized(v, capacity, i, size) == Released(w, i))
  {
    hide MallocStep, ReleaseStep, GrowsInPlace, Grown, Released;
    GrownLonger(v, capacity, v.cells[i] + Blank(size - v.arena.blocks[i].size));
  }

  lemma RegrownHolds(h: seq<byte>, v: View, capacity: nat, i: nat, cells: seq<Cell>)
    requires |cells| < TWO_TO_THE_64
    requires i == |v.cells| - 1
    requires var p := MallocStep(ReleaseStep(v.arena, i), capacity, |cells|).1;
             p.At? && GUARD_SIZE <= p.offset && BlockHolds(h, Block(p.offset - GUARD_SIZE, |cells|, true), cells)
    requires OthersHeld(h, v, i)
    ensures Holds(h, Grown(Released(v, i), capacity, cells))
  {
    hide Extent, BlockHolds, Accepts;
    MallocResult(ReleaseStep(v.arena, i), capacity, |cells|);
    hide MallocStep, Top;
  }

  lemma MovedHolds(h: seq<byte>, v: View, capacity: nat, i: nat, cells: seq<Cell>)
    requires |cells| < TWO_TO_THE_64
    requires i < |v.cells|
    requires var p := MallocStep(v.arena, capacity, |cells|).1;
             p.At? && GUARD_SIZE <= p.offset && BlockHolds(h, Block(p.offset - GUARD_SIZE, |cells|, true), cells)
    requires OthersHeld(h, v, i)
    ensures Holds(h, Released(Grown(v, capacity, cells), i))
    ensures |Grown(v, capacity, cells).cells| != |v.cells|
  {
    hide Extent, BlockHolds, Accepts;
    MallocResult(v.arena, capacity, |cells|);
    hide MallocStep, Top;
  }

  /** A write inside a block that is held disturbs no other byte that the client knows. */
  lemma WriteHolds(h: seq<byte>, v: View, i: nat, k: nat, x: byte)
    requires Tiled(v.arena.blocks) && Top(v.arena.blocks) <= |h| && Holds(h, v)
    requires Held(v, i) && k < v.arena.blocks[i].size
    requires v.arena.blocks[i].Data() + k < |h|
    ensures Holds(h[v.arena.blocks[i].Data() + k := x], RawView(v.arena, v.cells[i := v.cells[i][k := Known(x)]]))
  {
    var b := v.arena.blocks[i];
    var h' := h[b.Data() + k := x];
    OwnWriteHolds(h, b, v.cells[i], k, x);
    hide Extent, BlockHolds, Carried, Top;
    forall j | 0 <= j < |v.cells| && j != i && v.arena.blocks[j].live
      ensures BlockHolds(h', v.arena.blocks[j], v.cells[j])
    {
      var c := v.arena.blocks[j];
      assert c.Limit() <= b.base || b.Limit() <= c.base by {
        TiledLayout(v.arena.blocks, i);
      }
      OtherWriteHolds(h, b, c, v.cells[j], k, x);
    }
  }

  lemma OwnWriteHolds(h: seq<byte>, b: Block, cells: seq<Cell>, k: nat, x: byte)
    requires BlockHolds(h, b, cells) && k < |cells| && b.Data() + k < |h|
    ensures BlockHolds(h[b.Data() + k := x], b, cells[k := Known(x)])
  {
    ExtentPositive(b.size);
    hide Extent, Intact;
    DataWriteKeepsIntact(h, b, b.Data() + k, [x]);
    assert h[b.Data() + k := x] == Spliced(h, b.Data() + k, [x]);
  }

  lemma OtherWriteHolds(h: seq<byte>, b: Block, c: Block, cells: seq<Cell>, k: nat, x: byte)
    requires BlockHolds(h, c, cells) && k < b.size && b.Data() + k < |h|
    requires c.Limit() <= b.base || b.Limit() <= c.base
    ensures BlockHolds(h[b.Data() + k := x], c, cells)
  {
    var h' := h[b.Data() + k := x];
    ExtentPositive(b.size);
    hide Extent;
    SliceKept(h, h', c.base, c.Limit());
    CarriedHolds(h, h', c, cells);
  }

  // ---------------------------------------------------------------- sessions on the allocator

  /** The allocator is in the layout of the view, and its heap holds what the client knows. */
  ghost predicate Agrees(heap: UnityHeap, v: View)
    reads heap, heap.heap
  {
    heap.Valid() && heap.State() == v.arena && Holds(heap.heap[..], v)
  }

  lemma Laid(heap: UnityHeap, v: View)
    requires Agrees(heap, v)
    ensures heap.blocks == v.arena.blocks && Tiled(v.arena.blocks)
    ensures Top(v.arena.blocks) == heap.heapIndex <= heap.capacity == heap.heap.Length < TWO_TO_THE_64 / 2
  {
    hide Holds, SizesKept;
  }

  method DoMalloc(heap: UnityHeap, v: View, size: u64) returns (p: Pointer)
    requires Agrees(heap, v) && !MallocWraps(v.arena, heap.capacity, size)
    modifies heap`heapIndex, heap`mallocCount, heap`countdown, heap`blocks, heap.heap
    ensures p == MallocStep(v.arena, heap.capacity, size).1
    ensures Agrees(heap, Grown(v, heap.capacity, Blank(size)))
  {
    Laid(heap, v);
    hide Inv, SizesKept, Holds, Stamped, Allocated, Tiled, Top, Extent;
    ghost var h := heap.heap[..];
    var wraps: bool;
    p, wraps := heap.Malloc(size);
    AllocatedHolds(h, heap.heap[..], v, heap.capacity, size);
  }

  lemma AllocatedHolds(h: seq<byte>, h': seq<byte>, v: View, capacity: nat, size: u64)
    requires Tiled(v.arena.blocks) && Top(v.arena.blocks) <= |h| && Holds(h, v)
    requires Allocated(h, h', Top(v.arena.blocks), size, MallocStep(v.arena, capacity, size).1)
    ensures Holds(h', Grown(v, capacity, Blank(size)))
  {
    var base := Top(v.arena.blocks);
    hide Stamped, BlockHolds, Holds, Top, Tiled, Extent;
    if MallocStep(v.arena, capacity, size).1.Null? {
      GrownNotHolds(h, v, capacity, Blank(size));
    } else {
      BlankHolds(h, base, size);
      StampedBelow(h, base, size);
      GrownHolds(h, h', v, capacity, Blank(size));
    }
  }

  method DoCalloc(heap: UnityHeap, v: View, num: u64, size: u64) returns (p: Pointer)
    requires Agrees(heap, v) && Allowed(v, heap.capacity, Calloc(num, size))
    modifies heap`heapIndex, heap`mallocCount, heap`countdown, heap`blocks, heap.heap
    ensures p == MallocStep(v.arena, heap.capacity, Product(num, size)).1
    ensures Agrees(heap, Grown(v, heap.capacity, AllZero(Product(num, size))))
  {
    Laid(heap, v);
    hide Inv, SizesKept, Holds, Stamped, Spliced, Tiled, Top, Extent;
    ghost var h := heap.heap[..];
    var wraps: bool;
    p, wraps := heap.Calloc(num, size);
    if p.Null? {
      GrownNotHolds(h, v, heap.capacity, AllZero(Product(num, size)));
    } else {
      ClearedHolds(h, v, heap.capacity, Product(num, size));
    }
  }

  lemma ClearedHolds(h: seq<byte>, v: View, capacity: nat, size: u64)
    requires Tiled(v.arena.blocks) && Holds(h, v) && MallocStep(v.arena, capacity, size).1.At?
    requires Top(v.arena.blocks) + Extent(size) <= |h| && Top(v.arena.blocks) + GUARD_SIZE + size <= |h|
    ensures var base := Top(v.arena.blocks);
            Holds(Spliced(Stamped(h, base, size), base + GUARD_SIZE, Zeros(size)), Grown(v, capacity, AllZero(size)))
  {
    var base := Top(v.arena.blocks);
    hide Stamped, BlockHolds, Holds, Top, Tiled, Extent, Spliced, MallocStep;
    ZeroHolds(h, base, size);
    StampedBelow(h, base, size);
    GrownHolds(h, Spliced(Stamped(h, base, size), base + GUARD_SIZE, Zeros(size)), v, capacity, AllZero(size));
  }

  method DoFree(heap: UnityHeap, v: View, i: nat) returns (overrun: bool)
    requires Agrees(heap, v) && Held(v, i)
    modifies heap`heapIndex, heap`mallocCount, heap`countdown, heap`blocks, heap.heap
    ensures !overrun && Agrees(heap, Released(v, i))
  {
    ReleasedHolds(heap.heap[..], v, i);
    overrun := heap.Free(At(v.arena.blocks[i].Data()), i);
  }

  lemma HeldIntact(h: seq<byte>, v: View, i: nat)
    requires Holds(h, v) && Held(v, i)
    ensures v.arena.blocks[i].Limit() <= |h| && Intact(h, v.arena.blocks[i])
  {
  }

  method DoRealloc(heap: UnityHeap, v: View, i: nat, size: u64) returns (out: Outcome)
    requires Agrees(heap, v) && Allowed(v, heap.capacity, Call.Realloc(i, size))
    modifies heap`heapIndex, heap`mallocCount, heap`countdown, heap`blocks, heap.heap
    ensures out == Returned(ReallocStep(v.arena, heap.capacity, i, size).1)
    ensures Agrees(heap, Resized(v, heap.capacity, i, size))
  {
    Laid(heap, v);
    HeldIntact(heap.heap[..], v, i);
    ResizedArena(v, heap.capacity, i, size);
    hide Inv, SizesKept, Holds, Rewritten, Preserved, Tiled, Top, Resized, Intact, ReallocStep, Extent;
    ghost var h := heap.heap[..];
    out := heap.Realloc(At(v.arena.blocks[i].Data()), size, i);
    ResizedHolds(h, heap.heap[..], v, heap.capacity, i, size);
  }

  method DoReallocNull(heap: UnityHeap, v: View, size: u64) returns (out: Outcome)
    requires Agrees(heap, v) && !MallocWraps(v.arena, heap.capacity, size)
    modifies heap`heapIndex, heap`mallocCount, heap`countdown, heap`blocks, heap.heap
    ensures out == Returned(MallocStep(v.arena, heap.capacity, size).1)
    ensures Agrees(heap, Grown(v, heap.capacity, Blank(size)))
  {
    Laid(heap, v);
    hide Inv, SizesKept, Holds, Stamped, Allocated, Tiled, Top, Extent, MallocWraps;
    ghost var h := heap.heap[..];
    out := heap.Realloc(Null, size, 0);
    AllocatedHolds(h, heap.heap[..], v, heap.capacity, size);
  }

  /** The data bytes of a block lie in no other block's size field. */
  lemma WriteSpares(heap: UnityHeap, v: View, i: nat, k: nat)
    requires Agrees(heap, v) && Held(v, i) && k < v.arena.blocks[i].size
    ensures Tiled(v.arena.blocks) && Top(v.arena.blocks) <= heap.heap.Length
    ensures v.arena.blocks[i].Data() + k < heap.heap.Length
    ensures var at := v.arena.blocks[i].Data() + k;
            forall b :: b in v.arena.blocks && b.live ==> !(b.base <= at < b.base + 8)
  {
    Laid(heap, v);
    var blocks, at := v.arena.blocks, v.arena.blocks[i].Data() + k;
    TiledLayout(blocks, i);
    ExtentPositive(blocks[i].size);
    hide Extent, Tiled, Holds, Inv, SizesKept, Top;
    forall b | b in blocks
      ensures !(b.base <= at < b.base + 8)
    {
      var j :| 0 <= j < |blocks| && blocks[j] == b;
      ExtentPositive(b.size);
    }
  }

  method DoWrite(heap: UnityHeap, v: View, i: nat, k: nat, x: byte)
    requires Agrees(heap, v) && Allowed(v, heap.capacity, Write(i, k, x))
    modifies heap`heapIndex, heap`mallocCount, heap`countdown, heap`blocks, heap.heap
    ensures Agrees(heap, ViewStep(v, heap.capacity, Write(i, k, x)))
  {
    hide Inv, SizesKept, Holds, Top, Tiled;
    WriteSpares(heap, v, i, k);
    WriteHolds(heap.heap[..], v, i, k, x);
    heap.ClientWrite(v.arena.blocks[i].Data() + k, x);
  }

  /** One call of the client, on the addresses that it was given. */
  method Serve(heap: UnityHeap, v: View, call: Call) returns (overrun: bool)
    requires Agrees(heap, v) && Allowed(v, heap.capacity, call)
    modifies heap`heapIndex, heap`mallocCount, heap`countdown, heap`blocks, heap.heap
    ensures !overrun && Agrees(heap, ViewStep(v, heap.capacity, call))
  {
    overrun := false;
    match call
    case Malloc(size) => {
      var p := DoMalloc(heap, v, size);
    }
    case Calloc(num, size) => {
      var p := DoCalloc(heap, v, num, size);
    }
    case Free(i) => overrun := DoFree(heap, v, i);
    case Realloc(i, size) => {
      var out := DoRealloc(heap, v, i, size);
      overrun := out.TestFailed?;
    }
    case Write(i, k, x) => DoWrite(heap, v, i, k, x);
    case FailAfter(n) => heap.MakeMallocFailAfterCount(n);
    case FreeNull => overrun := heap.Free(Null, 0);
    case ReallocNull(size) => {
      var out := DoReallocNull(heap, v, size);
      overrun := out.TestFailed?;
    }
  }

  /**
   Any session: no call reports an overrun, and at its end every block that is held is intact and
   holds every byte that the client knows.
  */
  method ServeAll(heap: UnityHeap, start: View, calls: seq<Call>, ghost views: seq<View>) returns (overrun: bool)
    requires IsSession(views, calls, heap.capacity) && views[0] == start && Agrees(heap, start)
    modifies heap`heapIndex, heap`mallocCount, heap`countdown, heap`blocks, heap.heap
    ensures !overrun && Agrees(heap, views[|calls|])
  {
    hide Agrees, Allowed, ViewStep;
    var v := start;
    for k := 0 to |calls|
      invariant v == views[k] && Agrees(heap, v)
    {
      overrun := Serve(heap, v, calls[k]);
      if overrun {
        return;
      }
      v := ViewStep(v, heap.capacity, calls[k]);
    }
    return false;
  }

  // ---------------------------------------------------------------- runs of the layout machine

  function CallOf(op: Op): Call {
    match op
    case Malloc(size) => Call.Malloc(size)
    case Free(i) => Call.Free(i)
    case Realloc(i, size) => Call.Realloc(i, size)
    case FailAfter(n) => Call.FailAfter(n)
  }

  lemma CallOfStep(v: View, capacity: nat, op: Op)
    requires UnityMemorySpec.Allowed(v.arena, op) && !Wraps(v.arena, capacity, op)
    ensures Allowed(v, capacity, CallOf(op))
    ensures ViewStep(v, capacity, CallOf(op)).arena == Step(v.arena, capacity, op)
  {
    hide MallocStep, ReallocStep, Resized, MallocWraps, ReallocWraps;
    if op.Realloc? {
      ResizedArena(v, capacity, op.block, op.size);
    }
  }

  lemma OpMeans(v: View, capacity: nat, op: Op)
    requires UnityMemorySpec.Allowed(v.arena, op) && !Wraps(v.arena, capacity, op)
    ensures op.Malloc? ==>
              && !MallocWraps(v.arena, capacity, op.size)
              && Result(v.arena, capacity, op) == MallocStep(v.arena, capacity, op.size).1
              && ViewStep(v, capacity, CallOf(op)) == Grown(v, capacity, Blank(op.size))
    ensures op.Free? ==>
              && Held(v, op.block) && Result(v.arena, capacity, op) == Null
              && ViewStep(v, capacity, CallOf(op)) == Released(v, op.block)
    ensures op.Realloc? ==>
              && Held(v, op.block) && Allowed(v, capacity, Call.Realloc(op.block, op.size))
              && Result(v.arena, capacity, op) == ReallocStep(v.arena, capacity, op.block, op.size).1
              && ViewStep(v, capacity, CallOf(op)) == Resized(v, capacity, op.block, op.size)
    ensures op.FailAfter? ==>
              && Result(v.arena, capacity, op) == Null
              && ViewStep(v, capacity, CallOf(op)) == ViewStep(v, capacity, Call.FailAfter(op.countdown))
  {
    hide Shaped, MallocWraps, ReallocWraps, MallocStep, ReallocStep, ReleaseStep, Grown, Released, Resized;
  }

  /** One operation of the layout machine on the allocator, with the address that it returns. */
  method PerformOp(heap: UnityHeap, v: View, op: Op) returns (p: Pointer)
    requires Agrees(heap, v) && UnityMemorySpec.Allowed(v.arena, op) && !Wraps(v.arena, heap.capacity, op)
    modifies heap`heapIndex, heap`mallocCount, heap`countdown, heap`blocks, heap.heap
    ensures p == Result(v.arena, heap.capacity, op)
    ensures Allowed(v, heap.capacity, CallOf(op)) && Agrees(heap, ViewStep(v, heap.capacity, CallOf(op)))
  {
    CallOfStep(v, heap.capacity, op);
    OpMeans(v, heap.capacity, op);
    hide Agrees, MallocWraps, ReallocWraps, MallocStep, ReallocStep, ReleaseStep, Grown, Released, Resized, Step;
    hide Shaped, Allowed, UnityMemorySpec.Allowed, Wraps, Result, ViewStep, CallOf;
    match op
    case Malloc(size) => p := DoMalloc(heap, v, size);
    case Free(i) => {
      var overrun := DoFree(heap, v, i);
      p := Null;
    }
    case Realloc(i, size) => {
      var out := DoRealloc(heap, v, i, size);
      p := out.mem;
    }
    case FailAfter(n) => {
      DoFailAfter(heap, v, n);
      p := Null;
    }
  }

  method DoFailAfter(heap: UnityHeap, v: View, n: int)
    requires Agrees(heap, v)
    modifies heap`countdown
    ensures Agrees(heap, ViewStep(v, heap.capacity, Call.FailAfter(n)))
  {
    heap.MakeMallocFailAfterCount(n);
  }

  ghost predicate AllIntact(h: seq<byte>, a: Arena) {
    forall i :: 0 <= i < |a.blocks| && a.blocks[i].live ==> a.blocks[i].Limit() <= |h| && Intact(h, a.blocks[i])
  }

  /** A view in which nothing is known of the data. */
  function BlankView(a: Arena): View {
    RawView(a, seq(|a.blocks|, i requires 0 <= i < |a.blocks| => Blank(a.blocks[i].size)))
  }

  lemma BlankViewHolds(h: seq<byte>, a: Arena)
    requires AllIntact(h, a)
    ensures Holds(h, BlankView(a))
  {
    hide Intact;
  }

  lemma HoldsIntact(h: seq<byte>, v: View)
    requires Holds(h, v)
    ensures AllIntact(h, v.arena)
  {
  }

  /**
   The allocator performs every run of the layout machine in which no request wraps around, from any
   layout whose blocks are intact: it passes through its states and returns its results.
  */
  method PerformRun(heap: UnityHeap, a: Arena, ops: seq<Op>, ghost states: seq<Arena>) returns (results: seq<Pointer>)
    requires heap.Valid() && heap.State() == a && AllIntact(heap.heap[..], a)
    requires IsRun(states, ops, heap.capacity) && |states| == |ops| + 1 && states[0] == a
    requires forall k :: 0 <= k < |ops| ==> !Wraps(states[k], heap.capacity, ops[k])
    modifies heap`heapIndex, heap`mallocCount, heap`countdown, heap`blocks, heap.heap
    ensures heap.Valid() && heap.State() == states[|ops|] && AllIntact(heap.heap[..], heap.State())
    ensures |results| == |ops| && forall k :: 0 <= k < |ops| ==> results[k] == Result(states[k], heap.capacity, ops[k])
  {
    BlankViewHolds(heap.heap[..], a);
    var v := BlankView(a);
    results := [];
    assert Agrees(heap, v);
    hide AllIntact, Step, Result, Wraps, Agrees, Allowed, UnityMemorySpec.Allowed, ViewStep, IsRun, CallOf, Shaped;
    for k := 0 to |ops|
      invariant Agrees(heap, v) && v.arena == states[k] && |results| == k
      invariant forall j :: 0 <= j < k ==> results[j] == Result(states[j], heap.capacity, ops[j])
    {
      RunStep(states, ops, heap.capacity, k);
      CallOfStep(v, heap.capacity, ops[k]);
      var p := PerformOp(heap, v, ops[k]);
      results := results + [p];
      v := ViewStep(v, heap.capacity, CallOf(ops[k]));
    }
    AgreesIntact(heap, v);
  }

  lemma RunStep(states: seq<Arena>, ops: seq<Op>, capacity: nat, k: nat)
    requires IsRun(states, ops, capacity) && k < |ops|
    ensures UnityMemorySpec.Allowed(states[k], ops[k]) && states[k + 1] == Step(states[k], capacity, ops[k])
  {
    hide Step, UnityMemorySpec.Allowed;
  }

  lemma AgreesIntact(heap: UnityHeap, v: View)
    requires Agrees(heap, v)
    ensures heap.Valid() && heap.State() == v.arena && AllIntact(heap.heap[..], v.arena)
  {
    HoldsIntact(heap.heap[..], v);
  }

  // ---------------------------------------------------------------- from program start

  /**
   From program start: the last value written to a byte is read back at the end of the session at the
   address that the client was given last, however often its block was resized or moved; and a leak
   is reported exactly when a block is still held then.
  */
  method TestRun(capacity: nat, calls: seq<Call>, ghost views: seq<View>) returns (heap: UnityHeap, leak: bool)
    requires capacity < TWO_TO_THE_64 / 2 && IsSession(views, calls, capacity)
    requires views[0] == RawView(Arena([], 0, MALLOC_DONT_FAIL), [])
    ensures forall k: nat, i: nat, j: nat, x: byte :: LastWrite(views, calls, capacity, k, |calls|, i, j, x) ==>
              ReadsBack(heap.heap[..], views[|calls|], Home(views, calls, capacity, i, k, |calls|), j, x)
    ensures leak <==> exists i :: Held(views[|calls|], i)
  {
    hide Holds, LastWrite, Home, ReadsBack;
    heap := new UnityHeap(capacity);
    NothingHeld(heap.heap[..]);
    var overrun := ServeAll(heap, RawView(Arena([], 0, MALLOC_DONT_FAIL), []), calls, views);
    LiveHeld(views[|calls|]);
    assert heap.outside == 0 && heap.blocks == views[|calls|].arena.blocks;
    forall k: nat, i: nat, j: nat, x: byte | LastWrite(views, calls, capacity, k, |calls|, i, j, x)
      ensures k <= |calls| && i < |views[k].cells|
      ensures ReadsBack(heap.heap[..], views[|calls|], Home(views, calls, capacity, i, k, |calls|), j, x)
    {
      LastWriteReadsBack(heap.heap[..], views, calls, capacity, k, i, j, x);
    }
    leak := heap.EndTest();
  }

  lemma NothingHeld(h: seq<byte>)
    ensures Holds(h, RawView(Arena([], 0, MALLOC_DONT_FAIL), []))
  {
  }

  /** Byte `j` at the handle's address is `x`. */
  ghost predicate ReadsBack(h: seq<byte>, v: View, at: Handle, j: nat, x: byte) {
    Good(v, at) && at.mem.offset + j < |h| && h[at.mem.offset + j] == x
  }

  lemma LastWriteReadsBack(h: seq<byte>, views: seq<View>, calls: seq<Call>, capacity: nat,
                           k: nat, i: nat, j: nat, x: byte)
    requires IsSession(views, calls, capacity) && Tiled(views[0].arena.blocks) && Holds(h, views[|calls|])
    requires LastWrite(views, calls, capacity, k, |calls|, i, j, x)
    ensures k <= |calls| && i < |views[k].cells|
    ensures ReadsBack(h, views[|calls|], Home(views, calls, capacity, i, k, |calls|), j, x)
  {
    hide Home, Tiled, Holds, Good, ReadsBack;
    WrittenFollows(views, calls, capacity, k, |calls|, i, j, x);
    HeldReadsBack(h, views[|calls|], Home(views, calls, capacity, i, k, |calls|), j, x);
  }

  lemma HeldReadsBack(h: seq<byte>, v: View, at: Handle, j: nat, x: byte)
    requires Holds(h, v) && KnownAt(v, at, j, x)
    ensures ReadsBack(h, v, at, j, x)
  {
    var b := v.arena.blocks[at.block];
    ExtentPositive(b.size);
    hide Extent, Intact;
    assert BlockHolds(h, b, v.cells[at.block]);
  }

  lemma {:induction false} LiveSome(blocks: seq<Block>)
    ensures Live(blocks) > 0 <==> exists i :: 0 <= i < |blocks| && blocks[i].live
    decreases |blocks|
  {
    if blocks != [] {
      var n := |blocks| - 1;
      LiveSome(blocks[..n]);
      if Live(blocks[..n]) > 0 {
        var i :| 0 <= i < n && blocks[..n][i].live;
        assert blocks[i].live;
      }
      if i :| 0 <= i < |blocks| && blocks[i].live {
        assert i < n ==> blocks[..n][i].live;
      }
    }
  }

  lemma LiveHeld(v: View)
    ensures Live(v.arena.blocks) > 0 <==> exists i :: Held(v, i)
  {
    LiveSome(v.arena.blocks);
    if i :| 0 <= i < |v.arena.blocks| && v.arena.blocks[i].live {
      assert Held(v, i);
    }
  }
}
