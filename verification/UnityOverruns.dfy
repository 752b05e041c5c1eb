/**
 Sessions of a client that writes wherever it likes, except into the size fields of blocks in use:
 which calls report a buffer overrun, and why.
*/
module UnityOverruns {
  import opened Words
  import opened UnityMemorySpec
  import opened UnityMemory

  // ---------------------------------------------------------------- the heap, byte by byte

  /** The layout and every byte of the heap. */
  datatype Machine = Machine(arena: Arena, bytes: seq<byte>)

  // The client passes addresses; `block` is the block whose data starts there.
  datatype Action =
    | Malloc(size: u64)
    | Calloc(num: u64, size: u64)
    | Free(mem: Pointer, block: nat)
    | Realloc(mem: Pointer, block: nat, size: u64)
    | Poke(at: nat, value: byte)
    | FailAfter(count: int)

  ghost predicate Sound(m: Machine, capacity: nat) {
    Tiled(m.arena.blocks) && Top(m.arena.blocks) <= capacity == |m.bytes| < TWO_TO_THE_64 / 2
  }

  /** `mem` is the address of block `i`, which is in use. */
  predicate Held(a: Arena, mem: Pointer, i: nat) {
    i < |a.blocks| && a.blocks[i].live && mem == At(a.blocks[i].Data())
  }

  predicate InSizeField(a: Arena, at: nat) {
    exists i :: 0 <= i < |a.blocks| && a.blocks[i].live && a.blocks[i].base <= at < a.blocks[i].base + 8
  }

  predicate Allowed(m: Machine, capacity: nat, act: Action) {
    match act
    case Malloc(size) => !MallocWraps(m.arena, capacity, size)
    case Calloc(num, size) => !MallocWraps(m.arena, capacity, num * size % TWO_TO_THE_64)
    case Free(mem, i) => Held(m.arena, mem, i)
    case Realloc(mem, i, size) => Held(m.arena, mem, i) && !ReallocWraps(m.arena, capacity, i, size)
    case Poke(at, _) => at < |m.bytes| && !InSizeField(m.arena, at)
    case FailAfter(_) => true
  }

  ghost predicate Damaged(bytes: seq<byte>, b: Block) {
    b.Limit() <= |bytes| && !Intact(bytes, b)
  }

  /** The block that is handed back has a changed guard space or end marker. */
  ghost predicate Reports(m: Machine, capacity: nat, act: Action)
    requires Allowed(m, capacity, act)
  {
    match act
    case Free(_, i) => Damaged(m.bytes, m.arena.blocks[i])
    case Realloc(_, i, _) => Damaged(m.bytes, m.arena.blocks[i])
    case _ => false
  }

  /** What each action does to layout and bytes. */
  ghost predicate Next(m: Machine, capacity: nat, act: Action, m': Machine)
    requires Allowed(m, capacity, act)
  {
    match act
    case Malloc(size) =>
      var (a, p) := MallocStep(m.arena, capacity, size);
      m'.arena == a && Allocated(m.bytes, m'.bytes, Top(m.arena.blocks), size, p)
    case Calloc(num, size) =>
      var n, base := num * size % TWO_TO_THE_64, Top(m.arena.blocks);
      var (a, p) := MallocStep(m.arena, capacity, n);
      m'.arena == a
      && if p.Null? then m'.bytes == m.bytes
         else && base + Extent(n) <= |m.bytes| && base + GUARD_SIZE + n <= |m.bytes|
              && m'.bytes == Spliced(Stamped(m.bytes, base, n), base + GUARD_SIZE, Zeros(n))
    case Free(_, i) => m' == Machine(ReleaseStep(m.arena, i), m.bytes)
    case Realloc(_, i, size) =>
      if Reports(m, capacity, act) then m' == Machine(ReleaseStep(m.arena, i), m.bytes)
      else
        var (a, p) := ReallocStep(m.arena, capacity, i, size);
        m'.arena == a && Rewritten(m.bytes, m'.bytes, m.arena.blocks[i], size, p)
    case Poke(at, x) => m' == Machine(m.arena, m.bytes[at := x])
    case FailAfter(n) => m' == Machine(m.arena.(countdown := n), m.bytes)
  }

  /** The states of a history, each action allowed where it happens. */
  ghost predicate IsHistory(states: seq<Machine>, acts: seq<Action>, capacity: nat) {
    && |states| == |acts| + 1
    && forall k :: 0 <= k < |acts| ==>
         Allowed(states[k], capacity, acts[k]) && Next(states[k], capacity, acts[k], states[k + 1])
  }

  /** Layout and bytes after an action are determined. */
  lemma NextUnique(m: Machine, capacity: nat, act: Action, m1: Machine, m2: Machine)
    requires Allowed(m, capacity, act)
    requires Next(m, capacity, act, m1) && Next(m, capacity, act, m2)
    ensures m1 == m2
  {
    hide Allowed, Reports, Stamped, Spliced, Extent, Top, MallocStep, ReallocStep, ReleaseStep;
  }

  // ---------------------------------------------------------------- the code

  ghost predicate Agrees(heap: UnityHeap, m: Machine)
    reads heap, heap.heap
  {
    heap.Valid() && heap.State() == m.arena && heap.heap[..] == m.bytes
  }

  lemma AgreesSound(heap: UnityHeap, m: Machine)
    requires Agrees(heap, m)
    ensures Sound(m, heap.capacity) && heap.heapIndex == Top(m.arena.blocks) && heap.blocks == m.arena.blocks
  {
    hide SizesKept;
  }

  method DoMalloc(heap: UnityHeap, size: u64, ghost m: Machine) returns (ghost m': Machine)
    requires Agrees(heap, m) && Allowed(m, heap.capacity, Action.Malloc(size))
    modifies heap`heapIndex, heap`mallocCount, heap`countdown, heap`blocks, heap.heap
    ensures Agrees(heap, m') && Next(m, heap.capacity, Action.Malloc(size), m')
  {
    AgreesSound(heap, m);
    hide Inv, SizesKept, Allocated, Top, MallocWraps;
    var p, wraps := heap.Malloc(size);
    m' := Machine(heap.State(), heap.heap[..]);
  }

  method DoCalloc(heap: UnityHeap, num: u64, size: u64, ghost m: Machine) returns (ghost m': Machine)
    requires Agrees(heap, m) && Allowed(m, heap.capacity, Calloc(num, size))
    modifies heap`heapIndex, heap`mallocCount, heap`countdown, heap`blocks, heap.heap
    ensures Agrees(heap, m') && Next(m, heap.capacity, Calloc(num, size), m')
  {
    AgreesSound(heap, m);
    hide Inv, SizesKept, Stamped, Spliced, Top, Extent, MallocWraps;
    var p, wraps := heap.Calloc(num, size);
    m' := Machine(heap.State(), heap.heap[..]);
  }

  method DoRealloc(heap: UnityHeap, mem: Pointer, ghost i: nat, size: u64, ghost m: Machine)
    returns (failed: bool, ghost m': Machine)
    requires Agrees(heap, m) && Allowed(m, heap.capacity, Action.Realloc(mem, i, size))
    modifies heap`heapIndex, heap`mallocCount, heap`countdown, heap`blocks, heap.heap
    ensures Agrees(heap, m') && Next(m, heap.capacity, Action.Realloc(mem, i, size), m')
    ensures failed <==> Reports(m, heap.capacity, Action.Realloc(mem, i, size))
  {
    AgreesSound(heap, m);
    hide Inv, SizesKept, Rewritten, Preserved, Top, Extent, ReallocWraps, ReallocStep, ReleaseStep, Intact;
    var out := heap.Realloc(mem, size, i);
    failed := out.TestFailed?;
    m' := Machine(heap.State(), heap.heap[..]);
  }

  /** One action on the allocator: it does what `Next` says, and it fails the test exactly on an overrun. */
  method Operate(heap: UnityHeap, act: Action, ghost m: Machine) returns (failed: bool, ghost m': Machine)
    requires Agrees(heap, m) && Allowed(m, heap.capacity, act)
    modifies heap`heapIndex, heap`mallocCount, heap`countdown, heap`blocks, heap.heap
    ensures Agrees(heap, m') && Next(m, heap.capacity, act, m')
    ensures failed <==> Reports(m, heap.capacity, act)
  {
    failed := false;
    match act
    case Malloc(size) => m' := DoMalloc(heap, size, m);
    case Calloc(num, size) => m' := DoCalloc(heap, num, size, m);
    case Free(mem, i) => {
      failed := heap.Free(mem, i);
      m' := Machine(heap.State(), heap.heap[..]);
    }
    case Realloc(mem, i, size) => failed, m' := DoRealloc(heap, mem, i, size, m);
    case Poke(at, x) => {
      PokeAllowed(m.arena, at);
      heap.ClientWrite(at, x);
      m' := Machine(heap.State(), heap.heap[..]);
    }
    case FailAfter(n) => {
      heap.MakeMallocFailAfterCount(n);
      m' := Machine(heap.State(), heap.heap[..]);
    }
  }

  lemma PokeAllowed(a: Arena, at: nat)
    requires !InSizeField(a, at)
    ensures forall b :: b in a.blocks && b.live ==> !(b.base <= at < b.base + 8)
  {
    forall b | b in a.blocks && b.live
      ensures !(b.base <= at < b.base + 8)
    {
      var i :| 0 <= i < |a.blocks| && a.blocks[i] == b;
    }
  }

  /** A whole history: the code takes the heap through its states and reports exactly the overruns. */
  method OperateAll(heap: UnityHeap, acts: seq<Action>, ghost states: seq<Machine>) returns (reports: seq<bool>)
    requires IsHistory(states, acts, heap.capacity) && Agrees(heap, states[0])
    modifies heap`heapIndex, heap`mallocCount, heap`countdown, heap`blocks, heap.heap
    ensures Agrees(heap, states[|acts|]) && |reports| == |acts|
    ensures forall k :: 0 <= k < |acts| ==> (reports[k] <==> Reports(states[k], heap.capacity, acts[k]))
  {
    hide Agrees, Allowed, Next, Reports;
    reports := [];
    for k := 0 to |acts|
      invariant Agrees(heap, states[k]) && |reports| == k
      invariant forall j :: 0 <= j < k ==> (reports[j] <==> Reports(states[j], heap.capacity, acts[j]))
    {
      ghost var m';
      var failed: bool;
      failed, m' := Operate(heap, acts[k], states[k]);
      NextUnique(states[k], heap.capacity, acts[k], m', states[k + 1]);
      reports := reports + [failed];
    }
  }

  // ---------------------------------------------------------------- why a block is damaged

  lemma NextSound(m: Machine, capacity: nat, act: Action, m': Machine)
    requires Sound(m, capacity) && Allowed(m, capacity, act) && Next(m, capacity, act, m')
    ensures Sound(m', capacity)
  {
    var a := m.arena;
    var outside := Live(a.blocks) - a.count;
    assert Inv(a, capacity, outside);
    hide Tiled, Top, Stamped, Spliced, Extent, MallocStep, ReleaseStep, ReallocStep, MallocWraps, ReallocWraps, Reports;
    match act
    case Malloc(size) => MallocKeepsInv(a, capacity, size, outside);
    case Calloc(num, size) => MallocKeepsInv(a, capacity, num * size % TWO_TO_THE_64, outside);
    case Free(_, i) => ReleaseKeepsInv(a, capacity, i, outside);
    case Realloc(_, i, size) => {
      ReleaseKeepsInv(a, capacity, i, outside);
      ReallocKeepsInv(a, capacity, i, size, outside);
    }
    case Poke(_, _) =>
    case FailAfter(_) =>
  }

  /** The action hands block `i` back. */
  predicate HandsBack(act: Action, i: nat) {
    match act
    case Free(_, k) => k == i
    case Realloc(_, k, _) => k == i
    case _ => false
  }

  /** The byte after an action that leaves its block in use. */
  function Poked(act: Action, at: nat, original: byte): byte {
    if act.Poke? && act.at == at then act.value else original
  }

  lemma OtherBlockKept(m: Machine, capacity: nat, act: Action, m': Machine, i: nat)
    requires Allowed(m, capacity, act) && Next(m, capacity, act, m') && !HandsBack(act, i)
    requires i < |m.arena.blocks| && m.arena.blocks[i].live
    ensures i < |m'.arena.blocks| && m'.arena.blocks[i] == m.arena.blocks[i]
  {
    hide Accepts, Top, Allocated, Rewritten, Stamped, Spliced, Extent, Reports, MallocWraps, ReallocWraps;
  }

  /** No byte of a block in use changes but by a write of the client's. */
  lemma OtherByteKept(m: Machine, capacity: nat, act: Action, m': Machine, i: nat, at: nat)
    requires Sound(m, capacity) && Allowed(m, capacity, act) && Next(m, capacity, act, m') && !HandsBack(act, i)
    requires i < |m.arena.blocks| && m.arena.blocks[i].live
    requires m.arena.blocks[i].base <= at < m.arena.blocks[i].Limit()
    ensures at < |m.bytes| == |m'.bytes| && m'.bytes[at] == Poked(act, at, m.bytes[at])
  {
    var blocks := m.arena.blocks;
    assert at < Top(blocks) by {
      TiledLayout(blocks, i);
    }
    NextSound(m, capacity, act, m');
    hide Top, Tiled, Extent, Stamped, Spliced, MallocStep, ReleaseStep, ReallocStep, MallocWraps, ReallocWraps, Inv;
    match act
    case Malloc(size) => AllocatedBelow(m, size, m', at);
    case Calloc(num, size) => {
      var n := num * size % TWO_TO_THE_64;
      if m'.bytes != m.bytes {
        StampedBelow(m.bytes, Top(blocks), n);
      }
    }
    case Free(_, _) =>
    case Realloc(_, k, size) =>
      if !Reports(m, capacity, act) {
        ReallocOthers(m, capacity, k, size, m', i, at);
      }
    case Poke(_, _) =>
    case FailAfter(_) =>
  }

  lemma AllocatedBelow(m: Machine, size: u64, m': Machine, at: nat)
    requires at < Top(m.arena.blocks) <= |m.bytes|
    requires exists p :: Allocated(m.bytes, m'.bytes, Top(m.arena.blocks), size, p)
    ensures m'.bytes[at] == m.bytes[at]
  {
    hide Stamped, Extent, Top;
    if m'.bytes != m.bytes {
      StampedBelow(m.bytes, Top(m.arena.blocks), size);
    }
  }

  lemma ReallocOthers(m: Machine, capacity: nat, k: nat, size: u64, m': Machine, i: nat, at: nat)
    requires Sound(m, capacity) && k < |m.arena.blocks| && i < |m.arena.blocks| && i != k
    requires m.arena.blocks[k].live && !Damaged(m.bytes, m.arena.blocks[k])
    requires !ReallocWraps(m.arena, capacity, k, size)
    requires Rewritten(m.bytes, m'.bytes, m.arena.blocks[k], size, ReallocStep(m.arena, capacity, k, size).1)
    requires m.arena.blocks[i].base <= at < m.arena.blocks[i].Limit()
    ensures at < |m.bytes| == |m'.bytes| && m'.bytes[at] == m.bytes[at]
  {
    var blocks, p := m.arena.blocks, ReallocStep(m.arena, capacity, k, size).1;
    assert blocks[k].Limit() <= |m.bytes| by {
      TiledLayout(blocks, k);
    }
    ReallocLands(m.arena, capacity, k, size, Live(blocks) - m.arena.count);
    hide Extent, Intact, Tiled, Top, ReallocStep, Rewritten, ReallocWraps, Preserved;
    RewrittenPreserves(m.bytes, m'.bytes, blocks, k, size, p);
    OtherByteCarried(m.bytes, m'.bytes, blocks, k, size, p, i, at);
  }

  lemma OtherByteCarried(h: seq<byte>, h': seq<byte>, blocks: seq<Block>, k: nat, size: nat, p: Pointer,
                         i: nat, at: nat)
    requires k < |blocks| && Preserved(h, h', blocks, k, size, p) && i < |blocks| && i != k
    requires blocks[i].base <= at < blocks[i].Limit()
    ensures at < |h| == |h'| && h'[at] == h[at]
  {
    var b := blocks[i];
    hide Extent, Marked;
    assert Carried(h, h', b.base, b.base, Extent(b.size));
    assert h'[b.base..b.Limit()][at - b.base] == h[b.base..b.Limit()][at - b.base];
  }

  /** What the client's writes from `k` up to `m` make of a byte. */
  function Overlaid(acts: seq<Action>, k: nat, m: nat, at: nat, original: byte): byte
    requires k <= m <= |acts|
    decreases m - k
  {
    if k == m then original else Poked(acts[m - 1], at, Overlaid(acts, k, m - 1, at, original))
  }

  /** While block `i` is in use its bytes, guard and end marker included, are what the client's writes make of them. */
  lemma {:induction false} BytesFollowPokes(states: seq<Machine>, acts: seq<Action>, capacity: nat,
                                            k: nat, m: nat, i: nat, at: nat)
    requires IsHistory(states, acts, capacity) && Sound(states[0], capacity) && k <= m <= |acts|
    requires i < |states[k].arena.blocks| && states[k].arena.blocks[i].live
    requires forall l :: k <= l < m ==> !HandsBack(acts[l], i)
    requires states[k].arena.blocks[i].base <= at < states[k].arena.blocks[i].Limit()
    ensures i < |states[m].arena.blocks| && states[m].arena.blocks[i] == states[k].arena.blocks[i]
    ensures at < |states[k].bytes| == |states[m].bytes|
    ensures states[m].bytes[at] == Overlaid(acts, k, m, at, states[k].bytes[at])
    decreases m - k
  {
    hide Sound, Allowed, Next, HandsBack, Poked;
    HistorySound(states, acts, capacity, m);
    if k < m {
      BytesFollowPokes(states, acts, capacity, k, m - 1, i, at);
      HistorySound(states, acts, capacity, m - 1);
      assert Next(states[m - 1], capacity, acts[m - 1], states[m - 1 + 1]);
      OtherBlockKept(states[m - 1], capacity, acts[m - 1], states[m], i);
      OtherByteKept(states[m - 1], capacity, acts[m - 1], states[m], i, at);
    } else {
      InsideHeap(states[m], capacity, i);
    }
  }

  lemma InsideHeap(m: Machine, capacity: nat, i: nat)
    requires Sound(m, capacity) && i < |m.arena.blocks|
    ensures m.arena.blocks[i].Limit() <= |m.bytes|
  {
    TiledLayout(m.arena.blocks, i);
  }

  lemma {:induction false} HistorySound(states: seq<Machine>, acts: seq<Action>, capacity: nat, k: nat)
    requires IsHistory(states, acts, capacity) && Sound(states[0], capacity) && k < |states|
    ensures Sound(states[k], capacity)
    decreases k
  {
    hide Sound, Allowed, Next;
    if k > 0 {
      HistorySound(states, acts, capacity, k - 1);
      assert Next(states[k - 1], capacity, acts[k - 1], states[k - 1 + 1]);
      NextSound(states[k - 1], capacity, acts[k - 1], states[k]);
    }
  }

  /** The bytes that the overrun check looks at: the guard space and the end marker. */
  predicate InMarkers(b: Block, at: nat) {
    b.base + 8 <= at < b.base + 16 || b.Data() + b.size <= at < b.Data() + b.size + 4
  }

  function MarkerByte(b: Block, at: nat): byte
    requires InMarkers(b, at)
  {
    if at < b.base + 16 then 0 else END[at - b.Data() - b.size]
  }

  /** Intactness byte by byte. */
  lemma IntactBytes(h: seq<byte>, b: Block)
    requires b.Limit() <= |h|
    ensures b.Data() + b.size + 4 <= b.Limit()
    ensures Intact(h, b) <==> forall at: nat :: InMarkers(b, at) ==> h[at] == MarkerByte(b, at)
  {
    ExtentPositive(b.size);
    hide Extent;
    var e := b.Data() + b.size;
    ZeroWord(h, b.base + 8);
    if Intact(h, b) {
      forall at: nat | InMarkers(b, at)
        ensures h[at] == MarkerByte(b, at)
      {
        assert at >= e ==> h[e..e + 4][at - e] == h[at];
      }
    }
    if forall at: nat :: InMarkers(b, at) ==> h[at] == MarkerByte(b, at) {
      forall k | b.base + 8 <= k < b.base + 16
        ensures h[k] == 0
      {
        assert InMarkers(b, k);
      }
      assert InMarkers(b, e) && InMarkers(b, e + 1) && InMarkers(b, e + 2) && InMarkers(b, e + 3);
      assert h[e..e + 4] == [h[e], h[e + 1], h[e + 2], h[e + 3]];
    }
  }

  /** Every byte of the markers counts: an intact block is damaged exactly by changing one of them. */
  lemma DamagedByChange(h: seq<byte>, h': seq<byte>, b: Block)
    requires b.Limit() <= |h| == |h'| && Intact(h, b)
    ensures b.Limit() >= b.Data() + b.size + 4
    ensures Damaged(h', b) <==> exists at: nat :: InMarkers(b, at) && h'[at] != h[at]
  {
    IntactBytes(h, b);
    IntactBytes(h', b);
    hide Intact, Extent;
  }

  lemma ZeroWord(h: seq<byte>, at: nat)
    requires at + 8 <= |h|
    ensures Le64(h, at) == 0 <==> forall k :: at <= k < at + 8 ==> h[k] == 0
  {
    if Le64(h, at) == 0 {
      assert Le32(h, at) == 0 && Le32(h, at + 4) == 0;
    }
    if forall k :: at <= k < at + 8 ==> h[k] == 0 {
      assert h[at] == h[at + 1] == h[at + 2] == h[at + 3] == 0;
      assert h[at + 4] == h[at + 5] == h[at + 6] == h[at + 7] == 0;
    }
  }

  /**
   Handing back block `i`, which was intact at state `k`, reports an overrun exactly when the writes
   of the client since then have left some byte of its guard space or end marker other than it was.
  */
  lemma ReportedExactly(states: seq<Machine>, acts: seq<Action>, capacity: nat, k: nat, m: nat, i: nat)
    requires IsHistory(states, acts, capacity) && Sound(states[0], capacity) && k <= m < |acts|
    requires i < |states[k].arena.blocks| && states[k].arena.blocks[i].live
    requires !Damaged(states[k].bytes, states[k].arena.blocks[i])
    requires HandsBack(acts[m], i) && forall l :: k <= l < m ==> !HandsBack(acts[l], i)
    ensures states[k].arena.blocks[i].Data() + states[k].arena.blocks[i].size + 4 <= |states[k].bytes|
    ensures Reports(states[m], capacity, acts[m]) <==>
            exists at: nat :: InMarkers(states[k].arena.blocks[i], at)
                         && Overlaid(acts, k, m, at, states[k].bytes[at]) != states[k].bytes[at]
  {
    var b, h, h' := states[k].arena.blocks[i], states[k].bytes, states[m].bytes;
    HistorySound(states, acts, capacity, k);
    InsideHeap(states[k], capacity, i);
    ExtentPositive(b.size);
    forall at | b.base <= at < b.Limit()
      ensures |h'| == |h| && states[m].arena.blocks[i] == b && h'[at] == Overlaid(acts, k, m, at, h[at])
    {
      BytesFollowPokes(states, acts, capacity, k, m, i, at);
    }
    hide Extent, Intact, Sound, Allowed, Next, Overlaid;
    BytesFollowPokes(states, acts, capacity, k, m, i, b.base);
    DamagedByChange(h, h', b);
  }

  /** A block that `unity_malloc` hands out is intact. */
  lemma FreshIntact(m: Machine, capacity: nat, size: u64, m': Machine)
    requires Allowed(m, capacity, Action.Malloc(size)) && Next(m, capacity, Action.Malloc(size), m')
    requires MallocStep(m.arena, capacity, size).1.At?
    ensures var i := |m.arena.blocks|;
            && i < |m'.arena.blocks| && m'.arena.blocks[i].live && !Damaged(m'.bytes, m'.arena.blocks[i])
            && MallocStep(m.arena, capacity, size).1 == At(m'.arena.blocks[i].Data())
  {
    hide Accepts, Top, Extent, Stamped, Intact;
    StampedIntact(m.bytes, Top(m.arena.blocks), size);
  }
}
