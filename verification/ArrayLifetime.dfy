/**
 The whole life of an array: whatever calls are made between `array_create` and `array_free`, every
 entry that was added is handed to `free_entry` exactly once, and nothing else is.
*/
module ArrayLifetime {
  import opened Words
  import opened Seqs
  import opened HashTables
  import opened ArraySpec
  import opened AssocArrays
  import opened OrderedMaps
  import opened ArrayRuns

  /** Every entry that the array has had: the freed ones, then those still listed. */
  ghost function Ledger(arr: AssocArray): seq<Entry>
    reads arr
  {
    arr.freed + EntriesOf(arr.order)
  }

  ghost predicate OnceEach(entries: seq<Entry>) {
    forall e :: e in entries ==> multiset(entries)[e] == 1
  }

  /** What identifies an entry to the caller: its key and its data. */
  function LabelOf(e: Entry): Item<Data> {
    Item(e.key, e.data)
  }

  function Labels(entries: seq<Entry>): (r: seq<Item<Data>>)
    ensures |r| == |entries|
  {
    seq(|entries|, i requires 0 <= i < |entries| => LabelOf(entries[i]))
  }

  /** What the calls of a run add, in call order. */
  function Added(ops: seq<Op<Data>>): seq<Item<Data>> {
    if ops == [] then []
    else
      var op := ops[|ops| - 1];
      Added(ops[..|ops| - 1]) + if IsAdding(op) then [Item(op.key, op.val)] else []
  }

  lemma LabelsAround(s: seq<Entry>, i: nat)
    requires i < |s|
    ensures multiset(Labels(s)) == multiset(Labels(RemoveAt(s, i))) + multiset{LabelOf(s[i])}
  {
    assert Labels(s) == Labels(s[..i]) + [LabelOf(s[i])] + Labels(s[i + 1..]);
    assert Labels(RemoveAt(s, i)) == Labels(s[..i]) + Labels(s[i + 1..]);
  }

  /** The same entries in another order have the same labels. */
  lemma {:induction false} LabelsOfPermutation(s: seq<Entry>, t: seq<Entry>)
    requires multiset(s) == multiset(t)
    ensures multiset(Labels(s)) == multiset(Labels(t))
    decreases |s|
  {
    hide Labels;
    if s == [] {
      assert |t| == |multiset(t)| == 0;
    } else {
      assert s[0] in multiset(t);
      var i :| 0 <= i < |t| && t[i] == s[0];
      RemoveAtMultiset(s, 0);
      RemoveAtMultiset(t, i);
      LabelsOfPermutation(RemoveAt(s, 0), RemoveAt(t, i));
      LabelsAround(s, 0);
      LabelsAround(t, i);
    }
  }

  /** New entries add their labels, wherever they stand. */
  lemma LabelsGrow(s: seq<Entry>, t: seq<Entry>, gained: seq<Entry>)
    requires multiset(t) == multiset(s) + multiset(gained)
    ensures multiset(Labels(t)) == multiset(Labels(s)) + multiset(Labels(gained))
  {
    LabelsOfPermutation(t, s + gained);
    assert Labels(s + gained) == Labels(s) + Labels(gained);
  }

  /** A delete moves what it removes from the list to the freed entries. */
  lemma DeletedAccounted(order: seq<Item<Entry>>, bits: nat, q: Key)
    ensures multiset(EntriesOf(order)) ==
            multiset(EntriesOf(Deleted(order, bits, q))) + multiset(Found(order, bits, q))
  {
    var i := NewestMatch(order, bits, q);
    if i >= 0 {
      EntriesAround(order, i);
    }
  }

  lemma AppendAccounted(order: seq<Item<Entry>>, x: Item<Entry>)
    ensures multiset(EntriesOf(order + [x])) == multiset(EntriesOf(order)) + multiset([x.val])
  {
    EntriesConcat(order, [x]);
    assert EntriesOf([x]) == [x.val];
  }

  lemma EndsAccounted(order: seq<Item<Entry>>)
    requires order != []
    ensures multiset(EntriesOf(order)) == multiset(EntriesOf(order[1..])) + multiset([order[0].val])
    ensures var n := |order| - 1;
            multiset(EntriesOf(order)) == multiset(EntriesOf(order[..n])) + multiset([order[n].val])
  {
    EntriesAround(order, 0);
    assert RemoveAt(order, 0) == order[1..];
    EntriesAround(order, |order| - 1);
    assert RemoveAt(order, |order| - 1) == order[..|order| - 1];
  }

  /** What a call takes off the list it frees, and what it adds is one new entry. */
  lemma PerformsAccounted(before: seq<Item<Entry>>, after: seq<Item<Entry>>, bits: nat, op: Op<Data>)
    requires Performs(before, after, bits, op)
    ensures IsAdding(op) ==> after != []
    ensures multiset(EntriesOf(after)) + multiset(Dropped(before, bits, op)) ==
            multiset(EntriesOf(before)) + multiset(if IsAdding(op) then [after[|after| - 1].val] else [])
  {
    hide Deleted, EntriesOf, Found;
    match op
    case Add(k, v) => AppendAccounted(before, after[|after| - 1]);
    case AddFailed(_, _) =>
    case Replace(k, v) => {
      DeletedAccounted(before, bits, k);
      AppendAccounted(Deleted(before, bits, k), after[|after| - 1]);
    }
    case ReplaceFailed(k, _) => DeletedAccounted(before, bits, k);
    case Del(k) => DeletedAccounted(before, bits, k);
    case DelFirst =>
      if before != [] {
        EndsAccounted(before);
      }
    case DelLast =>
      if before != [] {
        EndsAccounted(before);
      }
  }

  lemma AccountLonger(s: seq<Entry>, t: seq<Entry>, gained: seq<Entry>, labels: multiset<Item<Data>>,
                      ops: seq<Op<Data>>, i: nat)
    requires i < |ops| && multiset(Labels(s)) == labels + multiset(Added(ops[..i]))
    requires Labels(gained) == if IsAdding(ops[i]) then [Item(ops[i].key, ops[i].val)] else []
    requires multiset(t) == multiset(s) + multiset(gained)
    ensures multiset(Labels(t)) == labels + multiset(Added(ops[..i + 1]))
  {
    LabelsGrow(s, t, gained);
    assert ops[..i + 1][..i] == ops[..i];
  }

  /**
   A run keeps the account: what has been added is, entry by entry, what has been freed or is still
   listed, and no entry stands there twice.
  */
  method RunAccounted(arr: AssocArray, ops: seq<Op<Data>>)
    requires arr.Valid() && OnceEach(Ledger(arr)) && RunDecided(DataOf(arr.order), arr.ht.bits, ops)
    modifies arr.Repr
    ensures arr.Valid() && fresh(arr.Repr - old(arr.Repr)) && OnceEach(Ledger(arr))
    ensures multiset(Labels(Ledger(arr))) == multiset(Labels(old(Ledger(arr)))) + multiset(Added(ops))
  {
    assert Added(ops[..0]) == [];
    hide AssocArray.Valid, OpDecided, Performs, EntriesOf, DataOf, OnceEach, Step, Run, Added, Labels;
    ghost var before, labels := DataOf(arr.order), multiset(Labels(Ledger(arr)));
    NothingRun(before, arr.ht.bits, ops);
    for i := 0 to |ops|
      invariant arr.Valid() && fresh(arr.Repr - old(arr.Repr))
      invariant DataOf(arr.order) == Run(before, arr.ht.bits, ops[..i])
      invariant OnceEach(Ledger(arr)) && multiset(Labels(Ledger(arr))) == labels + multiset(Added(ops[..i]))
    {
      RunLonger(before, arr.ht.bits, ops, i);
      ghost var order, ledger := arr.order, Ledger(arr);
      DataOfOpDecided(order, arr.ht.bits, ops[i]);
      ghost var gained := PerformOnce(arr, ops[i]);
      PerformsStep(order, arr.order, arr.ht.bits, ops[i]);
      AccountLonger(ledger, Ledger(arr), gained, labels, ops, i);
    }
  }

  lemma EntriesLack(order: seq<Item<Entry>>, e: Entry)
    requires forall i :: 0 <= i < |order| ==> order[i].val != e
    ensures e !in EntriesOf(order)
  {
  }

  lemma Rearrange(freed: multiset<Entry>, dropped: multiset<Entry>, before: multiset<Entry>,
                  after: multiset<Entry>, added: multiset<Entry>)
    requires after + dropped == before + added
    ensures freed + dropped + after == freed + before + added
  {
    assert freed + dropped + after == freed + (after + dropped);
    assert freed + before + added == freed + (before + added);
  }

  lemma OnceEachGrows(s: seq<Entry>, t: seq<Entry>, gained: seq<Entry>)
    requires OnceEach(s) && multiset(t) == multiset(s) + multiset(gained)
    requires gained == [] || (|gained| == 1 && gained[0] !in s)
    ensures OnceEach(t)
  {
    forall e | e in t
      ensures multiset(t)[e] == 1
    {
      assert e in multiset(s) + multiset(gained);
      assert e !in s ==> multiset(s)[e] == 0;
    }
  }

  /** One call: the ledger gains the entry that the call adds, a new one with this key and data. */
  method PerformOnce(arr: AssocArray, op: Op<Data>) returns (ghost gained: seq<Entry>)
    requires arr.Valid() && OpDecided(arr.order, arr.ht.bits, op) && OnceEach(Ledger(arr))
    modifies arr.Repr
    ensures arr.Valid() && fresh(arr.Repr - old(arr.Repr))
    ensures Performs(old(arr.order), arr.order, arr.ht.bits, op)
    ensures Labels(gained) == if IsAdding(op) then [Item(op.key, op.val)] else []
    ensures OnceEach(Ledger(arr)) && multiset(Ledger(arr)) == multiset(old(Ledger(arr))) + multiset(gained)
  {
    hide AssocArray.Valid, OpDecided, EntriesOf, Dropped, OnceEach, Deleted;
    ghost var order, freed, values, ledger := arr.order, arr.freed, EntriesOf(arr.order), Ledger(arr);
    Perform(arr, op);
    ghost var dropped := Dropped(order, arr.ht.bits, op);
    PerformsAccounted(order, arr.order, arr.ht.bits, op);
    gained := if IsAdding(op) then [arr.order[|arr.order| - 1].val] else [];
    assert multiset(arr.freed) == multiset(freed) + multiset(dropped);
    Rearrange(multiset(freed), multiset(dropped), multiset(values), multiset(EntriesOf(arr.order)), multiset(gained));
    if IsAdding(op) {
      KeysStored(arr);
      EntriesLack(order, gained[0]);
      assert gained[0] !in freed;
    }
    OnceEachGrows(ledger, Ledger(arr), gained);
  }

  lemma EmptyLedger(arr: AssocArray)
    requires arr.order == [] && arr.freed == []
    ensures DataOf(arr.order) == [] && OnceEach(Ledger(arr)) && Labels(Ledger(arr)) == []
  {
    assert Ledger(arr) == [];
  }

  /**
   From `array_create` through any run of calls to `array_free`: exactly what was added is freed, key
   by key and datum by datum, no entry is freed twice, and every bucket is empty when the table goes.
  */
  method Lifetime(bits: nat, ops: seq<Op<Data>>) returns (arr: AssocArray)
    requires bits <= MAX_BITS && RunDecided([], bits, ops)
    ensures multiset(Labels(arr.freed)) == multiset(Added(ops)) && OnceEach(arr.freed)
    ensures |arr.freed| == |Added(ops)|
    ensures arr.ht.Valid() && arr.ht.bits == bits && |arr.ht.table| == Pow2(bits)
    ensures forall b :: 0 <= b < Pow2(bits) ==> arr.ht.chains[b] == [] && arr.ht.table[b].first == null
  {
    hide AssocArray.Valid, RunDecided, BucketWalk, EntriesOf, Added;
    arr := new AssocArray(bits);
    EmptyLedger(arr);
    RunAccounted(arr, ops);
    ghost var walk := BucketWalk(arr.order, bits, Pow2(bits));
    WalkIsPermutation(arr.order, bits);
    EntriesOfPermutation(walk, arr.order);
    ghost var ledger := Ledger(arr);
    var ret := arr.Free();
    assert multiset(arr.freed) == multiset(ledger);
    LabelsOfPermutation(arr.freed, ledger);
    arr.ht.ReprContents();
    arr.ht.TableSize();
    assert |Labels(arr.freed)| == |multiset(Labels(arr.freed))| == |multiset(Added(ops))|;
  }
}
