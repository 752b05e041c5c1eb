/**
 list.h, first half: the circular doubly linked list with an embedded head (`k_list`).

 A list is described from its head `h` by the sequence `s` of its other nodes. `Ring(h, s)` says
 that the `next` and `prev` links are exactly that circle. The head is not special in memory:
 `RingFromMember` gives the view from any other node, so every operation below that takes a head
 also describes what it does when it is handed an entry instead.
 */
module KList {
  import opened Seqs

  class KListHead {
    var next: KListHead?
    var prev: KListHead?
    // The structure this node is embedded in, as `k_container_of` finds it.
    var container: object?

    constructor ()
      ensures container == null
    {
      container := null;
      next, prev := null, null;
    }
  }

  /** Consecutive nodes of the path point at each other. */
  ghost predicate Linked(c: seq<KListHead>)
    reads c
  {
    && (forall i {:trigger c[i].next} :: 0 <= i < |c| - 1 ==> c[i].next == c[i + 1])
    && (forall i {:trigger c[i].prev} :: 1 <= i < |c| ==> c[i].prev == c[i - 1])
  }

  ghost predicate Ring(h: KListHead, s: seq<KListHead>)
    reads h, s
  {
    && h !in s
    && Distinct(s)
    && Linked([h] + s + [h])
  }

  ghost function Nodes(h: KListHead, s: seq<KListHead>): set<KListHead> {
    {h} + set x | x in s
  }

  /** Two lists with no node in common. */
  ghost predicate Apart(h: KListHead, s: seq<KListHead>, g: KListHead, t: seq<KListHead>) {
    && h != g && h !in t && g !in s
    && forall i, j :: 0 <= i < |s| && 0 <= j < |t| ==> s[i] != t[j]
  }

  /** The node in front of gap `k` of the circle; gap 0 opens behind the head. */
  ghost function Before(h: KListHead, s: seq<KListHead>, k: nat): KListHead
    requires k <= |s|
  {
    ([h] + s)[k]
  }

  /** The node behind gap `k`. */
  ghost function After(h: KListHead, s: seq<KListHead>, k: nat): KListHead
    requires k <= |s|
  {
    (s + [h])[k]
  }

  /** The same circle seen from its member `s[k]`. */
  lemma RingFromMember(h: KListHead, s: seq<KListHead>, k: nat)
    requires Ring(h, s) && k < |s|
    ensures Ring(s[k], s[k + 1..] + [h] + s[..k])
  {
    var c := [h] + s + [h];
    var t := s[k + 1..] + [h] + s[..k];
    var d := [s[k]] + t + [s[k]];
    forall i | 0 <= i < |d| - 1
      ensures d[i].next == d[i + 1] && d[i + 1].prev == d[i]
    {
      var j := if k + i < |s| then k + i + 1 else k + i - |s|;
      assert d[i] == c[j] && d[i + 1] == c[j + 1];
      assert c[j].next == c[j + 1] && c[j + 1].prev == c[j];
    }
  }

  /** On the path around a circle, no other node sits in front of gap `k` or behind it. */
  lemma GapDistinct(h: KListHead, s: seq<KListHead>, k: nat)
    requires h !in s && Distinct(s) && k <= |s|
    ensures var c := [h] + s + [h];
            && c[k] == Before(h, s, k) && c[k + 1] == After(h, s, k)
            && (forall i {:trigger c[i]} :: 0 <= i <= |s| && i != k ==> c[i] != c[k])
            && (forall i {:trigger c[i]} :: 1 <= i <= |s| + 1 && i != k + 1 ==> c[i] != c[k + 1])
  {
    var c := [h] + s + [h];
    assert forall i {:trigger c[i]} :: 1 <= i <= |s| ==> c[i] == s[i - 1];
  }

  method InitListHead(list: KListHead)
    modifies list`next, list`prev
    ensures Ring(list, [])
  {
    list.next := list;
    list.prev := list;
  }

  /** `__list_add`: insert `n` between the neighbours at position `k` of the circle. */
  method ListAdd(n: KListHead, prev: KListHead, next: KListHead,
                 ghost h: KListHead, ghost s: seq<KListHead>, ghost k: nat)
    requires Ring(h, s) && n != h && n !in s && k <= |s|
    requires prev == Before(h, s, k) && next == After(h, s, k)
    modifies n`next, n`prev, prev`next, next`prev
    ensures Ring(h, InsertAt(s, k, n))
  {
    ghost var c := [h] + s + [h];
    ghost var front, back := c[..k + 1], c[k + 1..];
    GapDistinct(h, s, k);
    next.prev := n;
    n.next := next;
    n.prev := prev;
    prev.next := n;
    assert Linked(front) && Linked([n]) && Linked(back);
    LinkedJoin(front, [n]);
    LinkedJoin(front + [n], back);
    assert [h] + InsertAt(s, k, n) + [h] == front + [n] + back;
    InsertAtDistinct(s, k, n);
  }

  /** `k_list_add`: `n` becomes the first entry. */
  method KListAdd(n: KListHead, head: KListHead, ghost s: seq<KListHead>)
    requires Ring(head, s) && n != head && n !in s
    modifies n`next, n`prev, head`next, After(head, s, 0)`prev
    ensures Ring(head, [n] + s)
  {
    assert ([head] + s + [head])[0].next == ([head] + s + [head])[1];
    ListAdd(n, head, head.next, head, s, 0);
    assert InsertAt(s, 0, n) == [n] + s;
  }

  /** `k_list_add_tail`: `n` becomes the last entry. */
  method KListAddTail(n: KListHead, head: KListHead, ghost s: seq<KListHead>)
    requires Ring(head, s) && n != head && n !in s
    modifies n`next, n`prev, head`prev, Before(head, s, |s|)`next
    ensures Ring(head, s + [n])
  {
    assert ([head] + s + [head])[|s| + 1].prev == ([head] + s + [head])[|s|];
    ListAdd(n, head.prev, head, head, s, |s|);
    assert InsertAt(s, |s|, n) == s + [n];
  }

  /** `__list_del`: bridge over the entry at position `k`. */
  method ListDel(prev: KListHead, next: KListHead, ghost h: KListHead, ghost s: seq<KListHead>, ghost k: nat)
    requires Ring(h, s) && k < |s|
    requires prev == Before(h, s, k) && next == After(h, s, k + 1)
    modifies prev`next, next`prev
    ensures Ring(h, RemoveAt(s, k))
  {
    ghost var c := [h] + s + [h];
    assert c[k] == prev && c[k + 2] == next;
    next.prev := prev;
    prev.next := next;
    assert Linked(c[..k + 1]) && Linked(c[k + 2..]);
    LinkedJoin(c[..k + 1], c[k + 2..]);
    assert [h] + RemoveAt(s, k) + [h] == c[..k + 1] + c[k + 2..];
  }

  lemma Neighbours(h: KListHead, s: seq<KListHead>, k: nat)
    requires Ring(h, s) && k < |s|
    ensures s[k].prev == Before(h, s, k) && s[k].next == After(h, s, k + 1)
  {
    var c := [h] + s + [h];
    assert c[k + 1] == s[k] && c[k] == Before(h, s, k) && c[k + 2] == After(h, s, k + 1);
  }

  /** `k_list_del`: the entry leaves the list; its own links are poisoned (null here). */
  method KListDel(entry: KListHead, ghost h: KListHead, ghost s: seq<KListHead>, ghost k: nat)
    requires Ring(h, s) && k < |s| && s[k] == entry
    modifies entry`next, entry`prev, Before(h, s, k)`next, After(h, s, k + 1)`prev
    ensures Ring(h, RemoveAt(s, k))
    ensures entry.next == null && entry.prev == null
  {
    Neighbours(h, s, k);
    ListDel(entry.prev, entry.next, h, s, k);
    entry.next := null;
    entry.prev := null;
  }

  /** `k_list_del_init`: the entry leaves the list and becomes an empty list of its own. */
  method KListDelInit(entry: KListHead, ghost h: KListHead, ghost s: seq<KListHead>, ghost k: nat)
    requires Ring(h, s) && k < |s| && s[k] == entry
    modifies entry`next, entry`prev, Before(h, s, k)`next, After(h, s, k + 1)`prev
    ensures Ring(h, RemoveAt(s, k)) && Ring(entry, [])
  {
    Neighbours(h, s, k);
    ListDel(entry.prev, entry.next, h, s, k);
    InitListHead(entry);
  }

  /** `k_list_replace`: `n` takes the place of a node, even when that node is an empty head. */
  method KListReplace(replaced: KListHead, n: KListHead, ghost s: seq<KListHead>)
    requires Ring(replaced, s) && n != replaced && n !in s
    modifies n`next, n`prev, After(replaced, s, 0)`prev, Before(replaced, s, |s|)`next
    ensures Ring(n, s)
  {
    ghost var c := [replaced] + s + [replaced];
    assert c[0].next == c[1] && c[|s| + 1].prev == c[|s|];
    n.next := replaced.next;
    n.next.prev := n;
    n.prev := replaced.prev;
    n.prev.next := n;
    ghost var d := [n] + s + [n];
    assert forall i :: 1 <= i <= |s| ==> d[i] == c[i];
  }

  method KListReplaceInit(replaced: KListHead, n: KListHead, ghost s: seq<KListHead>)
    requires Ring(replaced, s) && n != replaced && n !in s
    modifies n`next, n`prev, After(replaced, s, 0)`prev, Before(replaced, s, |s|)`next, replaced`next, replaced`prev
    ensures Ring(n, s) && Ring(replaced, [])
  {
    KListReplace(replaced, n, s);
    InitListHead(replaced);
  }

  /** `k_list_move` within one list: the entry goes to the front. */
  method KListMove(entry: KListHead, head: KListHead, ghost s: seq<KListHead>, ghost k: nat)
    requires Ring(head, s) && k < |s| && s[k] == entry
    modifies Nodes(head, s)`next, Nodes(head, s)`prev
    ensures Ring(head, [entry] + RemoveAt(s, k))
  {
    Neighbours(head, s, k);
    ListDel(entry.prev, entry.next, head, s, k);
    KListAdd(entry, head, RemoveAt(s, k));
  }

  /** `k_list_move_tail` within one list: the entry goes to the back. */
  method KListMoveTail(entry: KListHead, head: KListHead, ghost s: seq<KListHead>, ghost k: nat)
    requires Ring(head, s) && k < |s| && s[k] == entry
    modifies Nodes(head, s)`next, Nodes(head, s)`prev
    ensures Ring(head, RemoveAt(s, k) + [entry])
  {
    Neighbours(head, s, k);
    ListDel(entry.prev, entry.next, head, s, k);
    KListAddTail(entry, head, RemoveAt(s, k));
  }

  /** `k_list_move` across lists: the entry leaves list `h` and heads list `head`. */
  method KListMoveAcross(entry: KListHead, head: KListHead, ghost t: seq<KListHead>,
                         ghost h: KListHead, ghost s: seq<KListHead>, ghost k: nat)
    requires Ring(h, s) && k < |s| && s[k] == entry
    requires Ring(head, t) && Apart(h, s, head, t)
    modifies (Nodes(h, s) + Nodes(head, t))`next, (Nodes(h, s) + Nodes(head, t))`prev
    ensures Ring(h, RemoveAt(s, k)) && Ring(head, [entry] + t)
  {
    Neighbours(h, s, k);
    ListDel(entry.prev, entry.next, h, s, k);
    KListAdd(entry, head, t);
  }

  method KListMoveTailAcross(entry: KListHead, head: KListHead, ghost t: seq<KListHead>,
                             ghost h: KListHead, ghost s: seq<KListHead>, ghost k: nat)
    requires Ring(h, s) && k < |s| && s[k] == entry
    requires Ring(head, t) && Apart(h, s, head, t)
    modifies (Nodes(h, s) + Nodes(head, t))`next, (Nodes(h, s) + Nodes(head, t))`prev
    ensures Ring(h, RemoveAt(s, k)) && Ring(head, t + [entry])
  {
    Neighbours(h, s, k);
    ListDel(entry.prev, entry.next, h, s, k);
    KListAddTail(entry, head, t);
  }

  predicate KListEmpty(head: KListHead)
    reads head`next
  {
    head.next == head
  }

  predicate KListIsSingular(head: KListHead)
    reads head`next, head`prev
  {
    !KListEmpty(head) && head.next == head.prev
  }

  /** The two link tests decide emptiness and having one entry. */
  lemma RingTests(h: KListHead, s: seq<KListHead>)
    requires Ring(h, s)
    ensures KListEmpty(h) <==> s == []
    ensures KListIsSingular(h) <==> |s| == 1
    ensures h.next == After(h, s, 0) && h.prev == Before(h, s, |s|)
  {
    var c := [h] + s + [h];
    assert c[0].next == c[1] && c[|s| + 1].prev == c[|s|];
  }

  /** `k_list_rotate_left`: the first entry goes to the back. */
  method KListRotateLeft(head: KListHead, ghost s: seq<KListHead>)
    requires Ring(head, s)
    modifies Nodes(head, s)`next, Nodes(head, s)`prev
    ensures Ring(head, RotateLeft(s))
  {
    RingTests(head, s);
    if !KListEmpty(head) {
      var first := head.next;
      KListMoveTail(first, head, s, 0);
      assert RemoveAt(s, 0) + [first] == RotateLeft(s);
    }
  }

  /** `__list_cut_position`: entries up to and including `s[k - 1]` move under `list`. */
  method ListCutPosition(list: KListHead, head: KListHead, entry: KListHead, ghost s: seq<KListHead>, ghost k: nat)
    requires Ring(head, s) && list !in Nodes(head, s)
    requires 1 <= k <= |s| && entry == s[k - 1]
    modifies list`next, list`prev, Nodes(head, s)`next, Nodes(head, s)`prev
    ensures Ring(list, s[..k]) && Ring(head, s[k..])
  {
    ghost var c := [head] + s + [head];
    assert c[0].next == c[1] && c[k].next == c[k + 1];
    var newFirst := entry.next;
    list.next := head.next;
    list.next.prev := list;
    list.prev := entry;
    entry.next := list;
    head.next := newFirst;
    newFirst.prev := head;
    ghost var front, back := [list] + s[..k] + [list], [head] + s[k..] + [head];
    assert forall i {:trigger front[i]} :: 1 <= i <= k ==> front[i] == c[i];
    assert forall i {:trigger back[i]} :: 1 <= i <= |s| + 1 - k ==> back[i] == c[k + i];
    assert Linked(front);
  }

  /**
   `k_list_cut_position`: cutting at the entry at position `k` (0 for the head itself) leaves the
   first `k` entries under `list` and the rest under `head`. Cutting an empty `head` returns at
   once, so `list` is then left as it was.
  */
  method KListCutPosition(list: KListHead, head: KListHead, entry: KListHead, ghost s: seq<KListHead>, ghost k: nat)
    requires Ring(head, s) && list !in Nodes(head, s)
    requires k <= |s| && entry == Before(head, s, k)
    modifies list`next, list`prev, Nodes(head, s)`next, Nodes(head, s)`prev
    ensures Ring(head, s[k..])
    ensures s != [] ==> Ring(list, s[..k])
    ensures s == [] ==> list.next == old(list.next) && list.prev == old(list.prev)
  {
    RingTests(head, s);
    assert s[0..] == s;
    if KListEmpty(head) {
      return;
    }
    if KListIsSingular(head) && head.next != entry && head != entry {
      return;
    }
    if entry == head {
      InitListHead(list);
      assert k == 0 && s[..0] == [];
    } else {
      ListCutPosition(list, head, entry, s, k);
    }
  }

  /** `__list_splice`: the entries of `list` go in at position `k` of another circle. */
  method ListSplice(list: KListHead, prev: KListHead, next: KListHead, ghost t: seq<KListHead>,
                    ghost h: KListHead, ghost s: seq<KListHead>, ghost k: nat)
    requires Ring(list, t) && t != [] && Ring(h, s) && Apart(list, t, h, s)
    requires k <= |s| && prev == Before(h, s, k) && next == After(h, s, k)
    modifies After(list, t, 0)`prev, prev`next, Before(list, t, |t|)`next, next`prev
    ensures Ring(h, s[..k] + t + s[k..])
  {
    ghost var c, e := [h] + s + [h], [list] + t + [list];
    assert e[0].next == e[1] && e[|t| + 1].prev == e[|t|];
    assert c[k] == prev && c[k + 1] == next;
    var first := list.next;
    var last := list.prev;
    first.prev := prev;
    prev.next := first;
    last.next := next;
    next.prev := last;
    assert t == e[1..|t| + 1] && Linked(t);
    assert Linked(c[..k + 1]) && Linked(c[k + 1..]);
    SplicedRing(h, s, t, k);
  }

  lemma SplicedRing(h: KListHead, s: seq<KListHead>, t: seq<KListHead>, k: nat)
    requires k <= |s| && t != [] && h !in s && h !in t && Distinct(s) && Distinct(t)
    requires forall i, j :: 0 <= i < |s| && 0 <= j < |t| ==> t[j] != s[i]
    requires var c := [h] + s + [h]; Linked(c[..k + 1]) && Linked(t) && Linked(c[k + 1..])
    requires Before(h, s, k).next == t[0] && t[0].prev == Before(h, s, k)
    requires After(h, s, k).prev == t[|t| - 1] && t[|t| - 1].next == After(h, s, k)
    ensures Ring(h, s[..k] + t + s[k..])
  {
    var c := [h] + s + [h];
    LinkedJoin(c[..k + 1], t);
    LinkedJoin(c[..k + 1] + t, c[k + 1..]);
    assert c[..k + 1] + t + c[k + 1..] == [h] + (s[..k] + t + s[k..]) + [h];
    DistinctSplice(s, t, k);
  }

  /** Two paths whose ends point at each other form one path. */
  lemma LinkedJoin(a: seq<KListHead>, b: seq<KListHead>)
    requires Linked(a) && Linked(b) && a != [] && b != []
    requires a[|a| - 1].next == b[0] && b[0].prev == a[|a| - 1]
    ensures Linked(a + b)
  {
  }

  lemma DistinctSplice(s: seq<KListHead>, t: seq<KListHead>, k: nat)
    requires k <= |s| && Distinct(s) && Distinct(t)
    requires forall i, j :: 0 <= i < |s| && 0 <= j < |t| ==> t[j] != s[i]
    ensures Distinct(s[..k] + t + s[k..])
  {
  }

  /** `k_list_splice`: the entries of `list` go to the front of `head`; `list` itself is left stale. */
  method KListSplice(list: KListHead, head: KListHead, ghost t: seq<KListHead>, ghost s: seq<KListHead>)
    requires Ring(list, t) && Ring(head, s) && Apart(list, t, head, s)
    modifies Nodes(list, t)`next, Nodes(list, t)`prev, Nodes(head, s)`next, Nodes(head, s)`prev
    ensures Ring(head, t + s)
    ensures list.next == old(list.next) && list.prev == old(list.prev)
  {
    RingTests(list, t);
    RingTests(head, s);
    if !KListEmpty(list) {
      ListSplice(list, head, head.next, t, head, s, 0);
      assert s[..0] + t + s[0..] == t + s;
    } else {
      assert t + s == s;
    }
  }

  method KListSpliceTail(list: KListHead, head: KListHead, ghost t: seq<KListHead>, ghost s: seq<KListHead>)
    requires Ring(list, t) && Ring(head, s) && Apart(list, t, head, s)
    modifies Nodes(list, t)`next, Nodes(list, t)`prev, Nodes(head, s)`next, Nodes(head, s)`prev
    ensures Ring(head, s + t)
    ensures list.next == old(list.next) && list.prev == old(list.prev)
  {
    RingTests(list, t);
    RingTests(head, s);
    if !KListEmpty(list) {
      ListSplice(list, head.prev, head, t, head, s, |s|);
      assert s[..|s|] + t + s[|s|..] == s + t;
    } else {
      assert s + t == s;
    }
  }

  /** `k_list_splice_init`: no node is lost, and `list` is an empty list afterwards. */
  method KListSpliceInit(list: KListHead, head: KListHead, ghost t: seq<KListHead>, ghost s: seq<KListHead>)
    requires Ring(list, t) && Ring(head, s) && Apart(list, t, head, s)
    modifies Nodes(list, t)`next, Nodes(list, t)`prev, Nodes(head, s)`next, Nodes(head, s)`prev
    ensures Ring(head, t + s) && Ring(list, [])
  {
    RingTests(list, t);
    RingTests(head, s);
    if !KListEmpty(list) {
      ListSplice(list, head, head.next, t, head, s, 0);
      assert s[..0] + t + s[0..] == t + s;
      InitListHead(list);
    } else {
      assert t + s == s;
    }
  }

  method KListSpliceTailInit(list: KListHead, head: KListHead, ghost t: seq<KListHead>, ghost s: seq<KListHead>)
    requires Ring(list, t) && Ring(head, s) && Apart(list, t, head, s)
    modifies Nodes(list, t)`next, Nodes(list, t)`prev, Nodes(head, s)`next, Nodes(head, s)`prev
    ensures Ring(head, s + t) && Ring(list, [])
  {
    RingTests(list, t);
    RingTests(head, s);
    if !KListEmpty(list) {
      ListSplice(list, head.prev, head, t, head, s, |s|);
      assert s[..|s|] + t + s[|s|..] == s + t;
      InitListHead(list);
    } else {
      assert s + t == s;
    }
  }

  /** `list_del_range`: the entries from `s[i]` to `s[j]` leave, still linked to one another. */
  method ListDelRange(begin: KListHead, end: KListHead,
                      ghost h: KListHead, ghost s: seq<KListHead>, ghost i: nat, ghost j: nat)
    requires Ring(h, s) && i <= j < |s| && begin == s[i] && end == s[j]
    modifies Before(h, s, i)`next, After(h, s, j + 1)`prev
    ensures Ring(h, s[..i] + s[j + 1..]) && Linked(s[i..j + 1])
  {
    Neighbours(h, s, i);
    Neighbours(h, s, j);
    ghost var c := [h] + s + [h];
    ghost var front, middle, back := c[..i + 1], c[i + 1..j + 2], c[j + 2..];
    assert middle == s[i..j + 1];
    assert front[i] == begin.prev && back[0] == end.next;
    begin.prev.next := end.next;
    assert Linked(front) && Linked(middle) && Linked(back);
    end.next.prev := begin.prev;
    assert Linked(front) && Linked(middle) && Linked(back);
    ShortenedRing(h, s, i, j);
  }

  lemma ShortenedRing(h: KListHead, s: seq<KListHead>, i: nat, j: nat)
    requires i <= j < |s| && h !in s && Distinct(s)
    requires var c := [h] + s + [h]; Linked(c[..i + 1]) && Linked(c[j + 2..])
    requires Before(h, s, i).next == After(h, s, j + 1) && After(h, s, j + 1).prev == Before(h, s, i)
    ensures Ring(h, s[..i] + s[j + 1..])
  {
    var c := [h] + s + [h];
    LinkedJoin(c[..i + 1], c[j + 2..]);
    assert c[..i + 1] + c[j + 2..] == [h] + (s[..i] + s[j + 1..]) + [h];
  }

  /**
   Cutting a list anywhere into an empty target and splicing the target back onto the head
   restores the list, whatever the list and the position.
  */
  method CutThenSplice(list: KListHead, head: KListHead, entry: KListHead, ghost s: seq<KListHead>, ghost k: nat)
    requires Ring(head, s) && Ring(list, []) && list !in Nodes(head, s)
    requires k <= |s| && entry == Before(head, s, k)
    modifies list`next, list`prev, Nodes(head, s)`next, Nodes(head, s)`prev
    ensures Ring(head, s)
  {
    KListCutPosition(list, head, entry, s, k);
    assert Ring(list, s[..k]);
    KListSplice(list, head, s[..k], s[k..]);
    assert s[..k] + s[k..] == s;
  }

  /** Rotating a list as often as it is long puts every entry back in its place. */
  method RotateAllTheWay(head: KListHead, ghost s: seq<KListHead>, n: nat)
    requires Ring(head, s) && n == |s|
    modifies Nodes(head, s)`next, Nodes(head, s)`prev
    ensures Ring(head, s)
  {
    ghost var t := s;
    for i := 0 to n
      invariant Ring(head, t) && |t| == n && Nodes(head, t) == Nodes(head, s)
      invariant RotateTimes(t, n - i) == RotateTimes(s, n)
    {
      KListRotateLeft(head, t);
      RotateKeepsNodes(head, t);
      t := RotateLeft(t);
    }
    RotateFullTurn(s);
  }

  lemma RotateKeepsNodes(h: KListHead, s: seq<KListHead>)
    ensures |RotateLeft(s)| == |s| && Nodes(h, RotateLeft(s)) == Nodes(h, s)
  {
    if s != [] {
      assert s == [s[0]] + s[1..];
      assert forall x :: x in s <==> x in RotateLeft(s);
    }
  }
}
