/**
 The array as a map: over keys that do not mislead each other's lookups, `array_add_replace` and
 the deletes make it an insertion-ordered map, and `array_add`/`array_del` a stack per key.
 */
module OrderedMaps {
  import opened Seqs
  import opened ArraySpec

  /** The reference: which value each key has, and the keys from least to most recently written. */
  datatype OrderedMap<T> = OrderedMap(keys: seq<Key>, values: map<Key, T>)

  function Without(keys: seq<Key>, k: Key): seq<Key> {
    if keys == [] then []
    else (if keys[0] == k then [] else [keys[0]]) + Without(keys[1..], k)
  }

  function Removed<T>(m: OrderedMap<T>, k: Key): OrderedMap<T> {
    OrderedMap(Without(m.keys, k), m.values - {k})
  }

  function Written<T>(m: OrderedMap<T>, k: Key, v: T): OrderedMap<T> {
    OrderedMap(Without(m.keys, k) + [k], m.values[k := v])
  }

  /** What each map operation does to the reference. */
  function MapStep<T>(m: OrderedMap<T>, op: Op<T>): OrderedMap<T>
    requires !op.Add?
  {
    match op
    case AddFailed(_, _) => m
    case Replace(k, v) => Written(m, k, v)
    case ReplaceFailed(k, _) => Removed(m, k)
    case Del(k) => Removed(m, k)
    case DelFirst => if m.keys == [] then m else Removed(m, m.keys[0])
    case DelLast => if m.keys == [] then m else Removed(m, m.keys[|m.keys| - 1])
  }

  function MapRun<T>(m: OrderedMap<T>, ops: seq<Op<T>>): OrderedMap<T>
    requires forall op :: op in ops ==> !op.Add?
    decreases |ops|
  {
    if ops == [] then m else MapStep(MapRun(m, ops[..|ops| - 1]), ops[|ops| - 1])
  }

  function Keys<T>(order: seq<Item<T>>): (keys: seq<Key>)
    ensures |keys| == |order|
    ensures forall i :: 0 <= i < |order| ==> keys[i] == order[i].key
  {
    seq(|order|, i requires 0 <= i < |order| => order[i].key)
  }

  function Values<T>(order: seq<Item<T>>): (values: map<Key, T>)
    ensures values.Keys == set x | x in order :: x.key
    decreases |order|
  {
    if order == [] then map[]
    else
      var last := order[|order| - 1];
      assert order == order[..|order| - 1] + [last];
      Values(order[..|order| - 1])[last.key := last.val]
  }

  function MapOf<T>(order: seq<Item<T>>): OrderedMap<T> {
    OrderedMap(Keys(order), Values(order))
  }

  ghost predicate UniqueKeys<T>(order: seq<Item<T>>) {
    Distinct(Keys(order))
  }

  /** No key of the set extends another one of its bucket, so lookups are by equality. */
  ghost predicate ClashFree(keys: set<Key>, bits: nat) {
    forall k, l :: k in keys && l in keys ==> !Clash(k, l, bits)
  }

  predicate OpOver<T>(op: Op<T>, keys: set<Key>) {
    match op
    case Add(k, _) => k in keys
    case Replace(k, _) => k in keys
    case ReplaceFailed(k, _) => k in keys
    case Del(k) => k in keys
    case _ => true
  }

  // ---------------------------------------------------------------- deleting by key

  lemma NoClashWith<T>(order: seq<Item<T>>, keys: set<Key>, bits: nat, q: Key)
    requires ClashFree(keys, bits) && Over(order, keys) && q in keys
    ensures forall i :: 0 <= i < |order| ==> !Clash(order[i].key, q, bits) && !Clash(q, order[i].key, bits)
  {
  }

  /** Over such keys a delete removes exactly the newest item with the key, wherever it stands. */
  lemma DeletedNewest<T>(older: seq<Item<T>>, x: Item<T>, newer: seq<Item<T>>, keys: set<Key>, bits: nat)
    requires ClashFree(keys, bits) && Over(older + [x] + newer, keys)
    requires forall i :: 0 <= i < |newer| ==> newer[i].key != x.key
    ensures Deleted(older + [x] + newer, bits, x.key) == older + newer
  {
    hide NewestMatch, LookupDecided, ClashFree, NewestEqual;
    var order := older + [x] + newer;
    assert order[|older|] == x;
    NoClashWith(order, keys, bits, x.key);
    ClashFreeLookup(order, bits, x.key);
    assert forall i :: |older| < i < |order| ==> order[i] == newer[i - |older| - 1];
    assert NewestEqual(order, x.key) == |older|;
  }

  lemma DeletedAbsent<T>(order: seq<Item<T>>, q: Key, keys: set<Key>, bits: nat)
    requires ClashFree(keys, bits) && Over(order, keys) && q in keys
    requires q !in Keys(order)
    ensures Deleted(order, bits, q) == order
  {
    ClashFreeLookup(order, bits, q);
    forall i | 0 <= i < |order|
      ensures order[i].key != q
    {
      assert Keys(order)[i] in Keys(order);
    }
  }

  lemma {:induction false} WithoutAbsent(keys: seq<Key>, k: Key)
    requires k !in keys
    ensures Without(keys, k) == keys
  {
    if keys != [] {
      WithoutAbsent(keys[1..], k);
    }
  }

  lemma {:induction false} WithoutAround(a: seq<Key>, k: Key, b: seq<Key>)
    requires k !in a && k !in b
    ensures Without(a + [k] + b, k) == a + b
  {
    if a == [] {
      assert ([] + [k] + b)[1..] == b;
      WithoutAbsent(b, k);
      assert [] + b == b;
    } else {
      assert (a + [k] + b)[1..] == a[1..] + [k] + b;
      WithoutAround(a[1..], k, b);
      assert [a[0]] + (a[1..] + b) == a + b;
    }
  }

  lemma {:induction false} ValuesConcat<T>(a: seq<Item<T>>, b: seq<Item<T>>)
    ensures Values(a + b) == Values(a) + Values(b)
    decreases |b|
  {
    if b == [] {
      assert a + b == a;
    } else {
      assert (a + b)[..|a + b| - 1] == a + b[..|b| - 1];
      ValuesConcat(a, b[..|b| - 1]);
    }
  }

  lemma KeysConcat<T>(a: seq<Item<T>>, b: seq<Item<T>>)
    ensures Keys(a + b) == Keys(a) + Keys(b)
  {
  }

  lemma ValuesLacks<T>(order: seq<Item<T>>, k: Key)
    requires k !in Keys(order)
    ensures k !in Values(order)
  {
    forall x | x in order
      ensures x.key != k
    {
      var i :| 0 <= i < |order| && order[i] == x;
      assert Keys(order)[i] in Keys(order);
    }
  }

  lemma KeysTakenOut(a: seq<Key>, k: Key, b: seq<Key>)
    requires Distinct(a + [k] + b)
    ensures k !in a && k !in b && Distinct(a + b)
    ensures Without(a + [k] + b, k) == a + b
  {
    var keys := a + [k] + b;
    assert keys[|a|] == k;
    assert forall i :: 0 <= i < |a| ==> a[i] == keys[i];
    assert forall i :: 0 <= i < |b| ==> b[i] == keys[|a| + 1 + i];
    WithoutAround(a, k, b);
  }

  lemma ValuesAround<T>(older: seq<Item<T>>, x: Item<T>, newer: seq<Item<T>>)
    ensures Values(older + [x] + newer) == Values(older)[x.key := x.val] + Values(newer)
  {
    ValuesConcat(older + [x], newer);
    assert (older + [x])[..|older|] == older;
  }

  lemma MapMinus<K, V>(m: map<K, V>, n: map<K, V>, k: K, v: V)
    requires k !in m && k !in n
    ensures m + n == m[k := v] + n - {k}
  {
  }

  /** Taking the one item of a key out of the order list removes the key from the map. */
  lemma ItemTakenOut<T>(older: seq<Item<T>>, x: Item<T>, newer: seq<Item<T>>)
    requires UniqueKeys(older + [x] + newer)
    ensures x.key !in Keys(older) && x.key !in Keys(newer)
    ensures UniqueKeys(older + newer)
    ensures MapOf(older + newer) == Removed(MapOf(older + [x] + newer), x.key)
  {
    assert Keys(older + [x] + newer) == Keys(older) + [x.key] + Keys(newer);
    KeysConcat(older, newer);
    KeysTakenOut(Keys(older), x.key, Keys(newer));
    ValuesAround(older, x, newer);
    ValuesConcat(older, newer);
    ValuesLacks(older, x.key);
    ValuesLacks(newer, x.key);
    MapMinus(Values(older), Values(newer), x.key, x.val);
  }

  /** `array_del` is removal from the map. */
  lemma DeletedIsRemoved<T>(order: seq<Item<T>>, q: Key, keys: set<Key>, bits: nat)
    requires ClashFree(keys, bits) && Over(order, keys) && q in keys && UniqueKeys(order)
    ensures Over(Deleted(order, bits, q), keys) && UniqueKeys(Deleted(order, bits, q))
    ensures MapOf(Deleted(order, bits, q)) == Removed(MapOf(order), q)
    ensures q !in Keys(Deleted(order, bits, q))
  {
    if q in Keys(order) {
      var i :| 0 <= i < |order| && Keys(order)[i] == q;
      DeletedPresent(order, i, keys, bits);
    } else {
      DeletedAbsent(order, q, keys, bits);
      WithoutAbsent(Keys(order), q);
      ValuesLacks(order, q);
    }
  }

  lemma DeletedPresent<T>(order: seq<Item<T>>, i: nat, keys: set<Key>, bits: nat)
    requires ClashFree(keys, bits) && Over(order, keys) && UniqueKeys(order) && i < |order|
    ensures var q := order[i].key;
            && Over(Deleted(order, bits, q), keys) && UniqueKeys(Deleted(order, bits, q))
            && MapOf(Deleted(order, bits, q)) == Removed(MapOf(order), q)
            && q !in Keys(Deleted(order, bits, q))
  {
    hide MapOf, Deleted;
    var older, x, newer := order[..i], order[i], order[i + 1..];
    assert order == older + [x] + newer;
    ItemTakenOut(older, x, newer);
    assert forall j :: 0 <= j < |newer| ==> newer[j].key == Keys(newer)[j];
    DeletedNewest(older, x, newer, keys, bits);
    KeysConcat(older, newer);
  }

  // ---------------------------------------------------------------- the refinement

  lemma ItemAppended<T>(order: seq<Item<T>>, x: Item<T>)
    requires UniqueKeys(order) && x.key !in Keys(order)
    ensures UniqueKeys(order + [x])
    ensures MapOf(order + [x]) == OrderedMap(Keys(order) + [x.key], Values(order)[x.key := x.val])
  {
    assert (order + [x])[..|order|] == order;
    hide Values, Keys;
    KeysConcat(order, [x]);
    assert Keys([x]) == [x.key];
    InsertAtDistinct(Keys(order), |order|, x.key);
    assert InsertAt(Keys(order), |order|, x.key) == Keys(order) + [x.key];
    ValuesAppend(order, x);
  }

  lemma ValuesAppend<T>(order: seq<Item<T>>, x: Item<T>)
    ensures Values(order + [x]) == Values(order)[x.key := x.val]
  {
    assert (order + [x])[..|order|] == order;
  }

  /** Each map operation on the array is that operation on the map. */
  lemma StepRefines<T>(order: seq<Item<T>>, op: Op<T>, keys: set<Key>, bits: nat)
    requires ClashFree(keys, bits) && Over(order, keys) && UniqueKeys(order)
    requires OpOver(op, keys) && !op.Add?
    ensures Over(Step(order, bits, op), keys) && UniqueKeys(Step(order, bits, op))
    ensures MapOf(Step(order, bits, op)) == MapStep(MapOf(order), op)
  {
    hide Deleted, Over, UniqueKeys, MapOf, Removed, Written, ClashFree;
    match op
    case AddFailed(_, _) =>
    case Replace(k, v) => WriteRefines(order, k, v, keys, bits);
    case ReplaceFailed(k, _) => DeletedIsRemoved(order, k, keys, bits);
    case Del(k) => DeletedIsRemoved(order, k, keys, bits);
    case DelFirst => EndRefines(order, op, keys, bits);
    case DelLast => EndRefines(order, op, keys, bits);
  }

  lemma EndRefines<T>(order: seq<Item<T>>, op: Op<T>, keys: set<Key>, bits: nat)
    requires Over(order, keys) && UniqueKeys(order) && (op.DelFirst? || op.DelLast?)
    ensures Over(Step(order, bits, op), keys) && UniqueKeys(Step(order, bits, op))
    ensures MapOf(Step(order, bits, op)) == MapStep(MapOf(order), op)
  {
    hide Values, Removed, UniqueKeys;
    if order != [] {
      FirstRefines(order);
      LastRefines(order);
    }
  }

  lemma WriteRefines<T>(order: seq<Item<T>>, k: Key, v: T, keys: set<Key>, bits: nat)
    requires ClashFree(keys, bits) && Over(order, keys) && UniqueKeys(order) && k in keys
    ensures var r := Deleted(order, bits, k) + [Item(k, v)];
            Over(r, keys) && UniqueKeys(r) && MapOf(r) == Written(MapOf(order), k, v)
  {
    hide Deleted, Values, Without;
    DeletedIsRemoved(order, k, keys, bits);
    ItemAppended(Deleted(order, bits, k), Item(k, v));
    assert (Values(order) - {k})[k := v] == Values(order)[k := v];
  }

  lemma FirstRefines<T>(order: seq<Item<T>>)
    requires UniqueKeys(order) && order != []
    ensures UniqueKeys(order[1..]) && MapOf(order[1..]) == Removed(MapOf(order), order[0].key)
  {
    hide MapOf, Removed, UniqueKeys;
    assert [] + [order[0]] + order[1..] == order && [] + order[1..] == order[1..];
    ItemTakenOut([], order[0], order[1..]);
  }

  lemma LastRefines<T>(order: seq<Item<T>>)
    requires UniqueKeys(order) && order != []
    ensures var n := |order| - 1;
            UniqueKeys(order[..n]) && MapOf(order[..n]) == Removed(MapOf(order), order[n].key)
  {
    hide MapOf, Removed, UniqueKeys;
    var n := |order| - 1;
    assert order[..n] + [order[n]] + [] == order && order[..n] + [] == order[..n];
    ItemTakenOut(order[..n], order[n], []);
  }

  ghost predicate MapOps<T>(ops: seq<Op<T>>, keys: set<Key>) {
    forall op :: op in ops ==> OpOver(op, keys) && !op.Add?
  }

  /**
   Over every run of replacements and deletes, failing ones included, the array is the
   insertion-ordered map that the same run builds, and its keys stay unique.
  */
  lemma {:induction false} RunRefines<T>(order: seq<Item<T>>, ops: seq<Op<T>>, keys: set<Key>, bits: nat)
    requires ClashFree(keys, bits) && Over(order, keys) && UniqueKeys(order) && MapOps(ops, keys)
    ensures Over(Run(order, bits, ops), keys) && UniqueKeys(Run(order, bits, ops))
    ensures MapOf(Run(order, bits, ops)) == MapRun(MapOf(order), ops)
    decreases |ops|
  {
    if ops != [] {
      var n := |ops| - 1;
      RunRefines(order, ops[..n], keys, bits);
      StepRefines(Run(order, bits, ops[..n]), ops[n], keys, bits);
    }
  }

  // ---------------------------------------------------------------- the order is the order of writing

  /** The index of the last successful write of a key, or -1. */
  function WriteTime<T>(ops: seq<Op<T>>, k: Key): (t: int)
    ensures -1 <= t < |ops|
    ensures t >= 0 ==> ops[t].Replace? && ops[t].key == k
    ensures forall i :: t < i < |ops| ==> !(ops[i].Replace? && ops[i].key == k)
  {
    if ops == [] then -1
    else
      var n := |ops| - 1;
      if ops[n].Replace? && ops[n].key == k then n else WriteTime(ops[..n], k)
  }

  /** Every item carries the last value written to its key, and the items stand in order of those writes. */
  ghost predicate Chronicle<T>(order: seq<Item<T>>, ops: seq<Op<T>>) {
    && (forall i :: 0 <= i < |order| ==>
          var t := WriteTime(ops, order[i].key); t >= 0 && ops[t].val == order[i].val)
    && (forall i, j :: 0 <= i < j < |order| ==> WriteTime(ops, order[i].key) < WriteTime(ops, order[j].key))
  }

  lemma ChronicleRemoveAt<T>(order: seq<Item<T>>, ops: seq<Op<T>>, i: nat)
    requires Chronicle(order, ops) && i < |order|
    ensures Chronicle(RemoveAt(order, i), ops)
  {
    var rest := RemoveAt(order, i);
    assert forall j :: 0 <= j < |rest| ==> rest[j] == order[if j < i then j else j + 1];
  }

  lemma ChronicleDeleted<T>(order: seq<Item<T>>, ops: seq<Op<T>>, bits: nat, k: Key)
    requires Chronicle(order, ops)
    ensures Chronicle(Deleted(order, bits, k), ops)
  {
    var i := NewestMatch(order, bits, k);
    if i >= 0 {
      ChronicleRemoveAt(order, ops, i);
    }
  }

  lemma WriteTimeKept<T>(ops: seq<Op<T>>, op: Op<T>, k: Key)
    requires !(op.Replace? && op.key == k)
    ensures WriteTime(ops + [op], k) == WriteTime(ops, k)
  {
    assert (ops + [op])[..|ops|] == ops;
  }

  lemma ChronicleLater<T>(order: seq<Item<T>>, ops: seq<Op<T>>, op: Op<T>)
    requires Chronicle(order, ops)
    requires forall i :: 0 <= i < |order| ==> !(op.Replace? && op.key == order[i].key)
    ensures Chronicle(order, ops + [op])
  {
    forall i | 0 <= i < |order|
      ensures WriteTime(ops + [op], order[i].key) == WriteTime(ops, order[i].key)
    {
      WriteTimeKept(ops, op, order[i].key);
    }
  }

  lemma EmptyChronicle<T>(ops: seq<Op<T>>)
    ensures Chronicle([], ops) && UniqueKeys<T>([])
  {
  }

  /**
   From an empty array, after every run of replacements and deletes the list is sorted by last
   write: the first entry is the least recently written key, the last entry the most recent.
  */
  lemma {:induction false} ListIsWriteOrder<T>(ops: seq<Op<T>>, keys: set<Key>, bits: nat)
    requires ClashFree(keys, bits) && MapOps(ops, keys)
    ensures Chronicle(Run([], bits, ops), ops)
    decreases |ops|
  {
    hide Chronicle, Step, MapOf, MapRun, UniqueKeys, ClashFree;
    EmptyChronicle<T>(ops);
    if ops != [] {
      var n := |ops| - 1;
      var before, op := Run([], bits, ops[..n]), ops[n];
      ListIsWriteOrder(ops[..n], keys, bits);
      RunRefines([], ops[..n], keys, bits);
      ChronicleStep(before, ops[..n], op, keys, bits);
      assert ops == ops[..n] + [op];
    }
  }

  lemma ChronicleStep<T>(order: seq<Item<T>>, ops: seq<Op<T>>, op: Op<T>, keys: set<Key>, bits: nat)
    requires ClashFree(keys, bits) && Over(order, keys) && UniqueKeys(order)
    requires OpOver(op, keys) && !op.Add? && Chronicle(order, ops)
    ensures Chronicle(Step(order, bits, op), ops + [op])
  {
    hide Deleted, Chronicle, WriteTime, Values, ClashFree, Over, UniqueKeys;
    match op
    case AddFailed(_, _) => ChronicleLater(order, ops, op);
    case Replace(k, v) => ChronicleWrite(order, ops, k, v, keys, bits);
    case ReplaceFailed(k, _) => {
      ChronicleDeleted(order, ops, bits, k);
      ChronicleLater(Deleted(order, bits, k), ops, op);
    }
    case Del(k) => {
      ChronicleDeleted(order, ops, bits, k);
      ChronicleLater(Deleted(order, bits, k), ops, op);
    }
    case DelFirst =>
      if order != [] {
        ChronicleRemoveAt(order, ops, 0);
        assert RemoveAt(order, 0) == order[1..];
      }
      ChronicleLater(Step(order, bits, op), ops, op);
    case DelLast =>
      if order != [] {
        ChronicleRemoveAt(order, ops, |order| - 1);
        assert RemoveAt(order, |order| - 1) == order[..|order| - 1];
      }
      ChronicleLater(Step(order, bits, op), ops, op);
  }

  lemma ChronicleWrite<T>(order: seq<Item<T>>, ops: seq<Op<T>>, k: Key, v: T, keys: set<Key>, bits: nat)
    requires ClashFree(keys, bits) && Over(order, keys) && UniqueKeys(order) && k in keys
    requires Chronicle(order, ops)
    ensures Chronicle(Deleted(order, bits, k) + [Item(k, v)], ops + [Replace(k, v)])
  {
    hide Deleted, Values;
    var rest, op := Deleted(order, bits, k), Replace(k, v);
    ChronicleDeleted(order, ops, bits, k);
    DeletedIsRemoved(order, k, keys, bits);
    assert forall i :: 0 <= i < |rest| ==> rest[i].key == Keys(rest)[i];
    ChronicleLater(rest, ops, op);
    assert WriteTime(ops + [op], k) == |ops|;
    forall i | 0 <= i < |rest|
      ensures WriteTime(ops + [op], rest[i].key) < |ops|
    {
      WriteTimeKept(ops, op, rest[i].key);
    }
  }

  // ---------------------------------------------------------------- duplicates are a stack

  /** A delete right behind an add of the same key undoes it, from any state and for any key. */
  lemma AddThenDel<T>(order: seq<Item<T>>, bits: nat, k: Key, v: T)
    ensures Step(Step(order, bits, Add(k, v)), bits, Del(k)) == order
  {
    var longer := order + [Item(k, v)];
    assert MatchesInBucket(longer[|order|], bits, k);
    assert RemoveAt(longer, |order|) == order;
  }

  function Adds<T>(items: seq<Item<T>>): (ops: seq<Op<T>>) {
    seq(|items|, i requires 0 <= i < |items| => Add(items[i].key, items[i].val))
  }

  /** The deletes that answer those adds, the newest first. */
  function Dels<T>(items: seq<Item<T>>): (ops: seq<Op<T>>) {
    if items == [] then [] else [Del(items[|items| - 1].key)] + Dels(items[..|items| - 1])
  }

  lemma {:induction false} RunConcat<T>(order: seq<Item<T>>, bits: nat, a: seq<Op<T>>, b: seq<Op<T>>)
    ensures Run(order, bits, a + b) == Run(Run(order, bits, a), bits, b)
    decreases |b|
  {
    if b == [] {
      assert a + b == a;
    } else {
      assert (a + b)[..|a + b| - 1] == a + b[..|b| - 1];
      RunConcat(order, bits, a, b[..|b| - 1]);
    }
  }

  /** Any adds, duplicates included, followed by the matching deletes in reverse restore the list. */
  lemma {:induction false} AddsThenDels<T>(order: seq<Item<T>>, bits: nat, items: seq<Item<T>>)
    ensures Run(order, bits, Adds(items) + Dels(items)) == order
    decreases |items|
  {
    if items == [] {
      assert Adds(items) + Dels(items) == [];
    } else {
      var n := |items| - 1;
      var last, rest := items[n], items[..n];
      var push, pop: Op<T> := Add(last.key, last.val), Del(last.key);
      hide Adds, Dels, Run, Step;
      Nested(items);
      var mid := Run(order, bits, Adds(rest));
      AddThenDel(mid, bits, last.key, last.val);
      TwoSteps(mid, bits, push, pop);
      RunConcat(order, bits, Adds(rest), [push, pop] + Dels(rest));
      RunConcat(mid, bits, [push, pop], Dels(rest));
      RunConcat(order, bits, Adds(rest), Dels(rest));
      AddsThenDels(order, bits, rest);
    }
  }

  /** The last item is added and deleted in the middle of the sequence. */
  lemma Nested<T>(items: seq<Item<T>>)
    requires items != []
    ensures var last, rest := items[|items| - 1], items[..|items| - 1];
            Adds(items) + Dels(items) == Adds(rest) + ([Add(last.key, last.val), Del(last.key)] + Dels(rest))
  {
  }

  lemma TwoSteps<T>(order: seq<Item<T>>, bits: nat, a: Op<T>, b: Op<T>)
    ensures Run(order, bits, [a, b]) == Step(Step(order, bits, a), bits, b)
  {
    assert [a, b][..1] == [a] && [a][..0] == [];
    assert Run(order, bits, [a]) == Step(order, bits, a);
  }

  // The stack of each key, over any interleaving of calls.

  /** The values of one key, oldest first. */
  function Pile<T>(order: seq<Item<T>>, k: Key): seq<T> {
    if order == [] then []
    else
      var n := |order| - 1;
      Pile(order[..n], k) + if order[n].key == k then [order[n].val] else []
  }

  function Popped<T>(s: seq<T>): seq<T> {
    if s == [] then [] else s[..|s| - 1]
  }

  /** What a call does to the stack of `k`; at the ends of the list it matters whose entry stands there. */
  function PileStep<T>(pile: seq<T>, op: Op<T>, order: seq<Item<T>>, k: Key): seq<T> {
    match op
    case Add(q, v) => if q == k then pile + [v] else pile
    case AddFailed(_, _) => pile
    case Replace(q, v) => if q == k then Popped(pile) + [v] else pile
    case ReplaceFailed(q, _) => if q == k then Popped(pile) else pile
    case Del(q) => if q == k then Popped(pile) else pile
    case DelFirst => if order != [] && order[0].key == k && pile != [] then pile[1..] else pile
    case DelLast => if order != [] && order[|order| - 1].key == k then Popped(pile) else pile
  }

  function PileRun<T>(order: seq<Item<T>>, bits: nat, ops: seq<Op<T>>, k: Key): seq<T>
    decreases |ops|
  {
    if ops == [] then Pile(order, k)
    else
      var n := |ops| - 1;
      PileStep(PileRun(order, bits, ops[..n], k), ops[n], Run(order, bits, ops[..n]), k)
  }

  lemma {:induction false} PileConcat<T>(a: seq<Item<T>>, b: seq<Item<T>>, k: Key)
    ensures Pile(a + b, k) == Pile(a, k) + Pile(b, k)
    decreases |b|
  {
    if b == [] {
      assert a + b == a;
    } else {
      assert (a + b)[..|a + b| - 1] == a + b[..|b| - 1];
      PileConcat(a, b[..|b| - 1], k);
    }
  }

  lemma PileOfOne<T>(x: Item<T>, k: Key)
    ensures Pile([x], k) == if x.key == k then [x.val] else []
  {
    assert [x][..0] == [];
  }

  lemma {:induction false} PileAbsent<T>(order: seq<Item<T>>, k: Key)
    requires forall i :: 0 <= i < |order| ==> order[i].key != k
    ensures Pile(order, k) == []
    decreases |order|
  {
    if order != [] {
      PileAbsent(order[..|order| - 1], k);
    }
  }

  lemma PileAround<T>(order: seq<Item<T>>, i: nat, k: Key)
    requires i < |order|
    ensures Pile(order, k) ==
            Pile(order[..i], k) + (if order[i].key == k then [order[i].val] else []) + Pile(order[i + 1..], k)
    ensures Pile(RemoveAt(order, i), k) == Pile(order[..i], k) + Pile(order[i + 1..], k)
  {
    hide Pile;
    assert order == order[..i] + [order[i]] + order[i + 1..];
    PileConcat(order[..i] + [order[i]], order[i + 1..], k);
    PileConcat(order[..i], [order[i]], k);
    PileOfOne(order[i], k);
    PileConcat(order[..i], order[i + 1..], k);
  }

  /** A lookup finds the top of the key's stack, and a delete pops it. */
  lemma TopOfPile<T>(order: seq<Item<T>>, keys: set<Key>, bits: nat, q: Key)
    requires ClashFree(keys, bits) && Over(order, keys) && q in keys
    ensures var i, pile := NewestMatch(order, bits, q), Pile(order, q);
            if i < 0 then pile == [] else pile != [] && pile[|pile| - 1] == order[i].val
    ensures forall k :: Pile(Deleted(order, bits, q), k) == if k == q then Popped(Pile(order, k)) else Pile(order, k)
  {
    hide Pile, LookupDecided, NewestMatch, NewestEqual;
    NoClashWith(order, keys, bits, q);
    ClashFreeLookup(order, bits, q);
    var i := NewestMatch(order, bits, q);
    if i < 0 {
      PileAbsent(order, q);
    } else {
      PileAbsent(order[i + 1..], q);
      forall k
        ensures Pile(RemoveAt(order, i), k) == if k == q then Popped(Pile(order, k)) else Pile(order, k)
      {
        PileAround(order, i, k);
      }
      PileAround(order, i, q);
    }
  }

  lemma PileAfterStep<T>(order: seq<Item<T>>, op: Op<T>, keys: set<Key>, bits: nat, k: Key)
    requires ClashFree(keys, bits) && Over(order, keys) && OpOver(op, keys)
    ensures Pile(Step(order, bits, op), k) == PileStep(Pile(order, k), op, order, k)
  {
    hide Pile, Deleted, NewestMatch, ClashFree, Over;
    match op
    case Add(q, v) => PilePushed(order, Item(q, v), k);
    case AddFailed(_, _) =>
    case Replace(q, v) => {
      TopOfPile(order, keys, bits, q);
      PilePushed(Deleted(order, bits, q), Item(q, v), k);
    }
    case ReplaceFailed(q, _) => TopOfPile(order, keys, bits, q);
    case Del(q) => TopOfPile(order, keys, bits, q);
    case DelFirst =>
      if order != [] {
        PileEnds(order, k);
      }
    case DelLast =>
      if order != [] {
        PileEnds(order, k);
      }
  }

  lemma PilePushed<T>(order: seq<Item<T>>, x: Item<T>, k: Key)
    ensures Pile(order + [x], k) == Pile(order, k) + if x.key == k then [x.val] else []
  {
    PileConcat(order, [x], k);
    PileOfOne(x, k);
  }

  lemma PileEnds<T>(order: seq<Item<T>>, k: Key)
    requires order != []
    ensures var pile, n := Pile(order, k), |order| - 1;
            && (if order[0].key != k then Pile(order[1..], k) == pile
                else pile != [] && Pile(order[1..], k) == pile[1..])
            && Pile(order[..n], k) == if order[n].key == k then Popped(pile) else pile
  {
    hide Pile;
    PileAround(order, 0, k);
    PileAround(order, |order| - 1, k);
    assert RemoveAt(order, 0) == order[1..] && RemoveAt(order, |order| - 1) == order[..|order| - 1];
    assert order[..0] == [] && order[|order|..] == [];
    PileAbsent<T>([], k);
  }

  /**
   Over any interleaving of calls, failing ones and deletes at the ends included, the entries of a
   key are the stack that the calls on this key build.
  */
  lemma {:induction false} RunIsStackPerKey<T>(order: seq<Item<T>>, ops: seq<Op<T>>, keys: set<Key>, bits: nat, k: Key)
    requires ClashFree(keys, bits) && Over(order, keys) && forall op :: op in ops ==> OpOver(op, keys)
    ensures Over(Run(order, bits, ops), keys)
    ensures Pile(Run(order, bits, ops), k) == PileRun(order, bits, ops, k)
    decreases |ops|
  {
    hide ClashFree, Pile, PileStep, Step, Over;
    if ops != [] {
      var n := |ops| - 1;
      RunIsStackPerKey(order, ops[..n], keys, bits, k);
      PileAfterStep(Run(order, bits, ops[..n]), ops[n], keys, bits, k);
      StepOver(Run(order, bits, ops[..n]), bits, ops[n], keys);
    }
  }

  lemma StepOver<T>(order: seq<Item<T>>, bits: nat, op: Op<T>, keys: set<Key>)
    requires Over(order, keys) && OpOver(op, keys)
    ensures Over(Step(order, bits, op), keys)
  {
  }
}
