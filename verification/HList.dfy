/**
 list.h, second half: the hash-bucket list (`hlist`), singly linked from a one-pointer head. Every
 node also keeps `pprev`, the address of the pointer that points at it; that address is modelled as
 a `Slot`, so `*pprev = x` writes whichever field the slot names.
 */
module HList {
  import opened Seqs

  class HlistHead {
    var first: HlistNode?

    /** `INIT_HLIST_HEAD`. */
    constructor ()
      ensures first == null
    {
      first := null;
    }
  }

  class HlistNode {
    var next: HlistNode?
    var pprev: Slot
    // The structure this node is embedded in, as `k_container_of` finds it.
    var container: object?

    constructor ()
      ensures container == null
    {
      container := null;
      next, pprev := null, Null;
    }
  }

  /** The address of a pointer to a node: none, a poison value, a head's `first`, or a node's `next`. */
  datatype Slot = Null | Poison | HeadSlot(head: HlistHead) | NextOf(node: HlistNode)

  /** The pointer stored at a slot. */
  ghost function Deref(slot: Slot): HlistNode?
    reads if slot.HeadSlot? then {slot.head} else {}, if slot.NextOf? then {slot.node} else {}
  {
    match slot
    case HeadSlot(h) => h.first
    case NextOf(n) => n.next
    case _ => null
  }

  ghost function NodeAt(s: seq<HlistNode>, i: nat): HlistNode? {
    if i < |s| then s[i] else null
  }

  ghost function SlotAt(h: HlistHead, s: seq<HlistNode>, i: nat): Slot
    requires i <= |s|
  {
    if i == 0 then HeadSlot(h) else NextOf(s[i - 1])
  }

  /** The bucket `h` holds exactly the nodes `s`, in this order. */
  ghost predicate Chain(h: HlistHead, s: seq<HlistNode>)
    reads h, s
  {
    && Distinct(s)
    && h.first == NodeAt(s, 0)
    && (forall i {:trigger s[i].next} :: 0 <= i < |s| ==> s[i].next == NodeAt(s, i + 1))
    && (forall i {:trigger s[i].pprev} :: 0 <= i < |s| ==> s[i].pprev == SlotAt(h, s, i))
  }

  /** In a chain, the slot that a node's `pprev` names holds that node. */
  lemma SlotPointsBack(h: HlistHead, s: seq<HlistNode>, i: nat)
    requires Chain(h, s) && i < |s|
    ensures Deref(s[i].pprev) == s[i]
  {
    if i > 0 {
      assert s[i - 1].next == NodeAt(s, i);
    }
  }

  lemma SlotNotNull(h: HlistHead, s: seq<HlistNode>, i: nat)
    requires Chain(h, s) && i < |s|
    ensures !HlistUnhashed(s[i])
  {
  }

  predicate HlistUnhashed(n: HlistNode)
    reads n`pprev
  {
    n.pprev == Null
  }

  /** `*slot = value`. */
  method Store(slot: Slot, value: HlistNode?)
    requires slot.HeadSlot? || slot.NextOf?
    modifies (if slot.HeadSlot? then {slot.head} else {})`first, (if slot.NextOf? then {slot.node} else {})`next
    ensures slot.HeadSlot? ==> slot.head.first == value
    ensures slot.NextOf? ==> slot.node.next == value
  {
    match slot
    case HeadSlot(h) => h.first := value;
    case NextOf(n) => n.next := value;
  }

  /**
   `__hlist_del`: the node removes itself, knowing only its own two fields. Whichever chain holds it
   loses it and keeps the order of the rest.
  */
  method HlistUnlink(n: HlistNode, ghost h: HlistHead, ghost s: seq<HlistNode>, ghost k: nat)
    requires Chain(h, s) && k < |s| && s[k] == n
    modifies h`first, set x | x in s`next, set x | x in s`pprev
    ensures Chain(h, RemoveAt(s, k)) && n.pprev == old(n.pprev) && n.next == old(n.next)
  {
    var next := n.next;
    var pprev := n.pprev;
    Store(pprev, next);
    if next != null {
      next.pprev := pprev;
    }
    assert k + 1 < |s| ==> next == s[k + 1];
    ghost var r := RemoveAt(s, k);
    assert forall i {:trigger r[i]} :: 0 <= i < |r| ==> r[i] == s[if i < k then i else i + 1];
    forall i | 0 <= i < |r|
      ensures r[i].next == NodeAt(r, i + 1) && r[i].pprev == SlotAt(h, r, i)
    {
      var j := if i < k then i else i + 1;
      assert r[i] == s[j];
      assert j != k - 1 ==> s[j].next == NodeAt(s, j + 1);
      assert j != k + 1 ==> s[j].pprev == SlotAt(h, s, j);
    }
  }

  /** `hlist_del`: unlink, then poison the node's own fields (`next` is null here). */
  method HlistDel(n: HlistNode, ghost h: HlistHead, ghost s: seq<HlistNode>, ghost k: nat)
    requires Chain(h, s) && k < |s| && s[k] == n
    modifies h`first, set x | x in s`next, set x | x in s`pprev
    ensures Chain(h, RemoveAt(s, k)) && n.next == null && n.pprev == Poison
  {
    HlistUnlink(n, h, s, k);
    n.next := null;
    n.pprev := Poison;
  }

  /** `hlist_del_init`: a hashed node is unlinked and reset, an unhashed one is left alone. */
  method HlistDelInit(n: HlistNode, ghost h: HlistHead, ghost s: seq<HlistNode>, ghost k: nat)
    requires Chain(h, s) && (HlistUnhashed(n) || (k < |s| && s[k] == n))
    modifies h`first, set x | x in s`next, set x | x in s`pprev
    ensures HlistUnhashed(n)
    ensures if old(HlistUnhashed(n)) then Chain(h, s) else Chain(h, RemoveAt(s, k)) && n.next == null
  {
    if !HlistUnhashed(n) {
      HlistUnlink(n, h, s, k);
      n.next := null;
      n.pprev := Null;
    }
  }

  /** The links around a node put at position `k`, the other links being as before, form the longer chain. */
  lemma Inserted(h: HlistHead, s: seq<HlistNode>, k: nat, n: HlistNode)
    requires k <= |s| && Distinct(s) && n !in s
    requires n.next == NodeAt(s, k) && n.pprev == SlotAt(h, s, k)
    requires if k == 0 then h.first == n else h.first == NodeAt(s, 0) && s[k - 1].next == n
    requires k < |s| ==> s[k].pprev == NextOf(n)
    requires forall i {:trigger s[i].next} :: 0 <= i < |s| && i != k - 1 ==> s[i].next == NodeAt(s, i + 1)
    requires forall i {:trigger s[i].pprev} :: 0 <= i < |s| && i != k ==> s[i].pprev == SlotAt(h, s, i)
    ensures Chain(h, InsertAt(s, k, n))
  {
    var r := InsertAt(s, k, n);
    InsertAtDistinct(s, k, n);
    forall i | 0 <= i < |r|
      ensures r[i].next == NodeAt(r, i + 1) && r[i].pprev == SlotAt(h, r, i)
    {
      if i > k {
        assert r[i] == s[i - 1];
      }
    }
  }

  /** `hlist_add_head`: the node becomes the first of its bucket. */
  method HlistAddHead(n: HlistNode, h: HlistHead, ghost s: seq<HlistNode>)
    requires Chain(h, s) && n !in s
    modifies n`next, n`pprev, h`first, set x | x in s`pprev
    ensures Chain(h, [n] + s)
  {
    var first := h.first;
    n.next := first;
    if first != null {
      first.pprev := NextOf(n);
    }
    h.first := n;
    n.pprev := HeadSlot(h);
  }

  /** `hlist_add_before`: the node goes in right before `next`. */
  method HlistAddBefore(n: HlistNode, next: HlistNode, ghost h: HlistHead, ghost s: seq<HlistNode>, ghost k: nat)
    requires Chain(h, s) && n !in s && k < |s| && s[k] == next
    modifies n`next, n`pprev, h`first, set x | x in s`next, set x | x in s`pprev
    ensures Chain(h, InsertAt(s, k, n))
  {
    n.pprev := next.pprev;
    n.next := next;
    next.pprev := NextOf(n);
    Store(n.pprev, n);
    Inserted(h, s, k, n);
  }

  /** `hlist_add_behind`: the node goes in right behind `prev`. */
  method HlistAddBehind(n: HlistNode, prev: HlistNode, ghost h: HlistHead, ghost s: seq<HlistNode>, ghost k: nat)
    requires Chain(h, s) && n !in s && k < |s| && s[k] == prev
    modifies n`next, n`pprev, set x | x in s`next, set x | x in s`pprev
    ensures Chain(h, InsertAt(s, k + 1, n))
  {
    n.next := prev.next;
    prev.next := n;
    n.pprev := NextOf(prev);
    if n.next != null {
      n.next.pprev := NextOf(n);
    }
    Inserted(h, s, k + 1, n);
  }

  /** A chain that its head has lost: the links are those of a chain, the head's pointer aside. */
  ghost predicate Orphaned(h: HlistHead, s: seq<HlistNode>)
    reads s
  {
    forall i :: 0 <= i < |s| ==> s[i].next == NodeAt(s, i + 1) && s[i].pprev == SlotAt(h, s, i)
  }

  /**
   `hlist_move_list`: the whole chain moves to another head, which loses what it held. Moving a
   list onto its own head empties it. What another head held before stays linked in itself, but its
   first node still names that head, which no longer points at it.
  */
  method HlistMoveList(source: HlistHead, target: HlistHead, ghost s: seq<HlistNode>, ghost held: seq<HlistNode>)
    requires Chain(source, s)
    modifies source`first, target`first, set x | x in s`pprev
    ensures Chain(source, []) && (source != target ==> Chain(target, s))
    ensures old(Chain(target, held)) && held != [] && (forall x :: x in held ==> x !in s) ==>
              Orphaned(target, held) && target.first != held[0]
  {
    target.first := source.first;
    if target.first != null {
      target.first.pprev := HeadSlot(target);
    }
    source.first := null;
  }
}
