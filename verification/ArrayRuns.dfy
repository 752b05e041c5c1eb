/**
 Whole runs of the array code: any sequence of calls, each succeeding or failing, leaves the list
 that `Run` describes, so what is proved about runs holds of the pointer structures.
 */
module ArrayRuns {
  import opened HashTables
  import opened ArraySpec
  import opened AssocArrays
  import opened OrderedMaps

  /** The order list with the data of each entry in place of the entry. */
  ghost function DataOf(order: seq<Item<Entry>>): (r: seq<Item<Data>>)
    ensures |r| == |order|
    ensures forall i :: 0 <= i < |order| ==> r[i] == Item(order[i].key, order[i].val.data)
  {
    seq(|order|, i requires 0 <= i < |order| => Item(order[i].key, order[i].val.data))
  }

  lemma DataOfMatch(order: seq<Item<Entry>>, bits: nat, q: Key)
    ensures NewestMatch(DataOf(order), bits, q) == NewestMatch(order, bits, q)
  {
    var m, m' := NewestMatch(order, bits, q), NewestMatch(DataOf(order), bits, q);
    assert forall i :: 0 <= i < |order| ==>
             MatchesInBucket(DataOf(order)[i], bits, q) == MatchesInBucket(order[i], bits, q);
    assert m >= 0 ==> MatchesInBucket(DataOf(order)[m], bits, q);
    assert m' >= 0 ==> MatchesInBucket(order[m'], bits, q);
  }

  lemma DataOfDeleted(order: seq<Item<Entry>>, bits: nat, q: Key)
    ensures DataOf(Deleted(order, bits, q)) == Deleted(DataOf(order), bits, q)
  {
    DataOfMatch(order, bits, q);
  }

  lemma DataOfPlus(a: seq<Item<Entry>>, b: seq<Item<Entry>>)
    ensures DataOf(a + b) == DataOf(a) + DataOf(b)
  {
  }

  /** Chains do not depend on what the items carry. */
  lemma {:induction false} DataOfChain(order: seq<Item<Entry>>, bits: nat, b: nat)
    ensures ChainOf(DataOf(order), bits, b) == DataOf(ChainOf(order, bits, b))
    decreases |order|
  {
    if order != [] {
      var n := |order| - 1;
      DataOfChain(order[..n], bits, b);
      DataOfEnds(order);
      assert DataOf([order[n]]) == [DataOf(order)[n]];
      DataOfPlus([order[n]], ChainOf(order[..n], bits, b));
    }
  }

  /** Neither does the question whether a lookup is decided. */
  lemma DataOfDecided(order: seq<Item<Entry>>, bits: nat, q: Key)
    ensures LookupDecided(DataOf(order), bits, q) <==> LookupDecided(order, bits, q)
  {
    DataOfChain(order, bits, BucketOf(q, bits));
    var chain := ChainOf(order, bits, BucketOf(q, bits));
    var m, m' := FirstMatch(chain, q), FirstMatch(DataOf(chain), q);
    assert forall i :: 0 <= i < |chain| ==> DataOf(chain)[i].key == chain[i].key;
    assert m < |chain| ==> q <= DataOf(chain)[m].key;
    assert m' < |chain| ==> q <= chain[m'].key;
  }

  lemma DataOfOpDecided<T>(order: seq<Item<Entry>>, bits: nat, op: Op<T>)
    ensures OpDecided(DataOf(order), bits, op) <==> OpDecided(order, bits, op)
  {
    hide LookupDecided, DataOf;
    match op
    case Replace(k, _) => DataOfDecided(order, bits, k);
    case ReplaceFailed(k, _) => DataOfDecided(order, bits, k);
    case Del(k) => DataOfDecided(order, bits, k);
    case _ =>
  }

  lemma DataOfAppend(order: seq<Item<Entry>>, x: Item<Entry>)
    ensures DataOf(order + [x]) == DataOf(order) + [Item(x.key, x.val.data)]
  {
  }

  lemma OverData(order: seq<Item<Entry>>, keys: set<Key>)
    ensures Over(DataOf(order), keys) <==> Over(order, keys)
  {
    assert forall i :: 0 <= i < |order| ==> DataOf(order)[i].key == order[i].key;
  }

  /** Over keys that do not clash every run is decided. */
  lemma {:induction false} ClashFreeRun<T>(order: seq<Item<T>>, ops: seq<Op<T>>, keys: set<Key>, bits: nat)
    requires ClashFree(keys, bits) && Over(order, keys) && forall op :: op in ops ==> OpOver(op, keys)
    ensures RunDecided(order, bits, ops) && Over(Run(order, bits, ops), keys)
    decreases |ops|
  {
    hide ClashFree, Over, Step, OpDecided;
    if ops != [] {
      var n := |ops| - 1;
      var before := Run(order, bits, ops[..n]);
      ClashFreeRun(order, ops[..n], keys, bits);
      StepOver(before, bits, ops[n], keys);
      ClashFreeOp(before, ops[n], keys, bits);
      forall i | 0 <= i < |ops|
        ensures OpDecided(Run(order, bits, ops[..i]), bits, ops[i])
      {
        assert i < n ==> ops[..n][..i] == ops[..i] && ops[..n][i] == ops[i];
      }
    }
  }

  lemma ClashFreeOp<T>(order: seq<Item<T>>, op: Op<T>, keys: set<Key>, bits: nat)
    requires ClashFree(keys, bits) && Over(order, keys) && OpOver(op, keys)
    ensures OpDecided(order, bits, op)
  {
    hide LookupDecided;
    match op
    case Replace(k, _) => ClashFreeLookup(order, bits, k);
    case ReplaceFailed(k, _) => ClashFreeLookup(order, bits, k);
    case Del(k) => ClashFreeLookup(order, bits, k);
    case _ =>
  }

  predicate IsAdding(op: Op<Data>) {
    op.Add? || op.Replace?
  }

  /** `after` is `rest` with one more entry, for this key and data. */
  ghost predicate Extends(rest: seq<Item<Entry>>, after: seq<Item<Entry>>, k: Key, v: Data) {
    after != [] && var e := after[|after| - 1].val; e.data == v && after == rest + [Item(k, e)]
  }

  /** `after` is what the call leaves of the order list `before`. */
  ghost predicate Performs(before: seq<Item<Entry>>, after: seq<Item<Entry>>, bits: nat, op: Op<Data>) {
    match op
    case Add(k, v) => Extends(before, after, k, v)
    case AddFailed(_, _) => after == before
    case Replace(k, v) => Extends(Deleted(before, bits, k), after, k, v)
    case ReplaceFailed(k, _) => after == Deleted(before, bits, k)
    case Del(k) => after == Deleted(before, bits, k)
    case DelFirst => after == if before == [] then before else before[1..]
    case DelLast => after == if before == [] then before else before[..|before| - 1]
  }

  ghost function Found(order: seq<Item<Entry>>, bits: nat, q: Key): seq<Entry> {
    var i := NewestMatch(order, bits, q);
    if i < 0 then [] else [order[i].val]
  }

  /** The entries that the call takes off the list. */
  ghost function Dropped(before: seq<Item<Entry>>, bits: nat, op: Op<Data>): seq<Entry> {
    match op
    case Replace(k, _) => Found(before, bits, k)
    case ReplaceFailed(k, _) => Found(before, bits, k)
    case Del(k) => Found(before, bits, k)
    case DelFirst => if before == [] then [] else [before[0].val]
    case DelLast => if before == [] then [] else [before[|before| - 1].val]
    case _ => []
  }

  /** One call on the array: what becomes of the list, and which entries are freed. */
  method Perform(arr: AssocArray, op: Op<Data>)
    requires arr.Valid() && OpDecided(arr.order, arr.ht.bits, op)
    modifies arr.Repr
    ensures arr.Valid() && fresh(arr.Repr - old(arr.Repr))
    ensures Performs(old(arr.order), arr.order, arr.ht.bits, op)
    ensures IsAdding(op) ==> arr.order != [] && fresh(arr.order[|arr.order| - 1].val)
    ensures arr.freed == old(arr.freed) + Dropped(old(arr.order), arr.ht.bits, op)
  {
    hide AssocArray.Valid, LookupDecided, Deleted, NewestMatch;
    var ret: int;
    match op
    case Add(k, v) => ret := arr.Add(v, k, true, true);
    case AddFailed(k, gotEntry) => ret := arr.Add(0, k, gotEntry, false);
    case Replace(k, v) => ret := arr.AddReplace(v, k, true, true);
    case ReplaceFailed(k, gotEntry) => ret := arr.AddReplace(0, k, gotEntry, false);
    case Del(k) => ret := arr.Del(k);
    case DelFirst => ret := arr.DelEnd(true);
    case DelLast => ret := arr.DelEnd(false);
  }

  /** The call does to the data what the specification's step does. */
  lemma PerformsStep(before: seq<Item<Entry>>, after: seq<Item<Entry>>, bits: nat, op: Op<Data>)
    requires Performs(before, after, bits, op)
    ensures DataOf(after) == Step(DataOf(before), bits, op)
  {
    hide Deleted, DataOf;
    match op
    case Add(k, v) => DataOfAppend(before, after[|after| - 1]);
    case AddFailed(_, _) =>
    case Replace(k, v) => {
      DataOfDeleted(before, bits, k);
      DataOfAppend(Deleted(before, bits, k), after[|after| - 1]);
    }
    case ReplaceFailed(k, _) => DataOfDeleted(before, bits, k);
    case Del(k) => DataOfDeleted(before, bits, k);
    case DelFirst => DataOfEnds(before);
    case DelLast => DataOfEnds(before);
  }

  lemma DataOfEnds(order: seq<Item<Entry>>)
    ensures DataOf(order) == [] <==> order == []
    ensures order != [] ==> DataOf(order[1..]) == DataOf(order)[1..]
    ensures order != [] ==> DataOf(order[..|order| - 1]) == DataOf(order)[..|order| - 1]
  {
  }

  /** Any run of calls whose comparisons stay inside the stored keys. */
  method PerformAll(arr: AssocArray, ops: seq<Op<Data>>)
    requires arr.Valid() && RunDecided(DataOf(arr.order), arr.ht.bits, ops)
    modifies arr.Repr
    ensures arr.Valid() && fresh(arr.Repr - old(arr.Repr))
    ensures DataOf(arr.order) == Run(DataOf(old(arr.order)), arr.ht.bits, ops)
  {
    hide AssocArray.Valid, OpDecided, Run, Step, Performs, Dropped, DataOf;
    ghost var before := DataOf(arr.order);
    NothingRun(before, arr.ht.bits, ops);
    for i := 0 to |ops|
      invariant arr.Valid() && fresh(arr.Repr - old(arr.Repr))
      invariant DataOf(arr.order) == Run(before, arr.ht.bits, ops[..i])
    {
      RunLonger(before, arr.ht.bits, ops, i);
      ghost var order := arr.order;
      DataOfOpDecided(order, arr.ht.bits, ops[i]);
      Perform(arr, ops[i]);
      PerformsStep(order, arr.order, arr.ht.bits, ops[i]);
    }
  }

  /**
   End to end: after any run of replacements and deletes on a new array, a lookup finds the key's
   entry exactly when the map that the run builds has the key, and the entry holds the map's value.
  */
  method LookupAfterRun(bits: nat, ops: seq<Op<Data>>, q: Key, ghost keys: set<Key>) returns (found: Entry?)
    requires bits <= MAX_BITS && ClashFree(keys, bits) && MapOps(ops, keys) && q in keys
    ensures var m := MapRun(OrderedMap([], map[]), ops);
            if q in m.values then found != null && found.key == q && found.data == m.values[q] else found == null
  {
    hide AssocArray.Valid, ClashFree, Run, MapRun, Over, LookupDecided;
    var arr := new AssocArray(bits);
    EmptyOrder(keys);
    ClashFreeRun([], ops, keys, bits);
    PerformAll(arr, ops);
    RunRefines([], ops, keys, bits);
    OverData(arr.order, keys);
    NoClashWith(arr.order, keys, bits, q);
    ClashFreeLookup(arr.order, bits, q);
    LookupValue(arr.order, q);
    found := arr.GetByKey(q);
    KeysStored(arr);
  }

  /**
   End to end, additions included: after any run over keys that do not clash, a lookup finds the top
   of the stack that the calls on the key have built, and nothing exactly when that stack is empty.
  */
  method LookupAfterAnyRun(bits: nat, ops: seq<Op<Data>>, q: Key, ghost keys: set<Key>) returns (found: Entry?)
    requires bits <= MAX_BITS && ClashFree(keys, bits) && q in keys
    requires forall op :: op in ops ==> OpOver(op, keys)
    ensures var pile := PileRun([], bits, ops, q);
            if pile == [] then found == null
            else found != null && found.key == q && found.data == pile[|pile| - 1]
  {
    hide AssocArray.Valid, ClashFree, Run, Over, LookupDecided, PileRun, Pile;
    var arr := new AssocArray(bits);
    EmptyOrder(keys);
    ClashFreeRun([], ops, keys, bits);
    PerformAll(arr, ops);
    RunIsStackPerKey([], ops, keys, bits, q);
    TopOfData(arr.order, keys, bits, q);
    found := arr.GetByKey(q);
    KeysStored(arr);
  }

  /** The entry that a lookup finds holds the top of the key's stack. */
  lemma TopOfData(order: seq<Item<Entry>>, keys: set<Key>, bits: nat, q: Key)
    requires ClashFree(keys, bits) && Over(DataOf(order), keys) && q in keys
    ensures LookupDecided(order, bits, q)
    ensures var i, pile := NewestMatch(order, bits, q), Pile(DataOf(order), q);
            if i < 0 then pile == []
            else order[i].key == q && pile != [] && pile[|pile| - 1] == order[i].val.data
  {
    hide Pile, LookupDecided, NewestMatch, NewestEqual, ClashFree, DataOf;
    OverData(order, keys);
    NoClashWith(order, keys, bits, q);
    ClashFreeLookup(order, bits, q);
    DataOfMatch(order, bits, q);
    TopOfPile(DataOf(order), keys, bits, q);
  }

  lemma EmptyOrder(keys: set<Key>)
    ensures Over(DataOf([]), keys) && DataOf([]) == [] && Over<Data>([], keys)
    ensures MapOf<Data>([]) == OrderedMap([], map[]) && UniqueKeys<Data>([])
  {
  }

  lemma KeysStored(arr: AssocArray)
    requires arr.Valid()
    ensures forall i :: 0 <= i < |arr.order| ==> arr.order[i].val.key == arr.order[i].key
  {
    assert forall i :: 0 <= i < |arr.order| ==> arr.order[i] in arr.order;
  }

  lemma {:induction false} ValuesNewest<T>(order: seq<Item<T>>, q: Key)
    ensures var i, values := NewestEqual(order, q), OrderedMaps.Values(order);
            if i < 0 then q !in values else q in values && values[q] == order[i].val
    decreases |order|
  {
    if order != [] {
      ValuesNewest(order[..|order| - 1], q);
    }
  }

  /** The newest entry of a key holds the key's value in the map. */
  lemma LookupValue(order: seq<Item<Entry>>, q: Key)
    ensures var i, values := NewestEqual(order, q), MapOf(DataOf(order)).values;
            if i < 0 then q !in values else q in values && values[q] == order[i].val.data
  {
    hide OrderedMaps.Values, NewestEqual, DataOf;
    ValuesNewest(DataOf(order), q);
    DataOfEqual(order, q);
  }

  lemma DataOfEqual(order: seq<Item<Entry>>, q: Key)
    ensures NewestEqual(DataOf(order), q) == NewestEqual(order, q)
  {
    hide NewestEqual, DataOf;
    var i, i' := NewestEqual(order, q), NewestEqual(DataOf(order), q);
    assert i >= 0 ==> DataOf(order)[i].key == q;
    assert i' >= 0 ==> order[i'].key == q;
  }

  /**
   End to end: after such a run the first entry is the least recently written key still present and
   the last entry the most recently written one.
  */
  method EndsAfterRun(bits: nat, ops: seq<Op<Data>>, ghost keys: set<Key>) returns (first: Entry?, last: Entry?)
    requires bits <= MAX_BITS && ClashFree(keys, bits) && MapOps(ops, keys)
    ensures var present := MapRun(OrderedMap([], map[]), ops).keys;
            if present == [] then first == null && last == null
            else && first != null && last != null && first.key in present && last.key in present
                 && forall k :: k in present ==>
                      0 <= WriteTime(ops, first.key) <= WriteTime(ops, k) <= WriteTime(ops, last.key)
  {
    hide AssocArray.Valid, ClashFree, Run, MapRun, Over, Chronicle;
    var arr := new AssocArray(bits);
    EmptyOrder(keys);
    ClashFreeRun([], ops, keys, bits);
    PerformAll(arr, ops);
    RunRefines([], ops, keys, bits);
    ListIsWriteOrder(ops, keys, bits);
    first := arr.GetEnd(true);
    last := arr.GetEnd(false);
    KeysStored(arr);
    ChronicleEnds(DataOf(arr.order), ops);
  }

  lemma ChronicleEnds(order: seq<Item<Data>>, ops: seq<Op<Data>>)
    requires Chronicle(order, ops)
    ensures order != [] ==>
              var n := |order| - 1;
              && order[0].key in Keys(order) && order[n].key in Keys(order)
              && forall k :: k in Keys(order) ==>
                   0 <= WriteTime(ops, order[0].key) <= WriteTime(ops, k) <= WriteTime(ops, order[n].key)
  {
    if order != [] {
      assert Keys(order)[0] == order[0].key && Keys(order)[|order| - 1] == order[|order| - 1].key;
      forall k | k in Keys(order)
        ensures 0 <= WriteTime(ops, order[0].key) <= WriteTime(ops, k) <= WriteTime(ops, order[|order| - 1].key)
      {
        var i :| 0 <= i < |order| && Keys(order)[i] == k;
        assert order[i].key == k;
      }
    }
  }
}
