/** The sequence operations that the list operations refine. */
module Seqs {
  ghost predicate Distinct<T>(s: seq<T>) {
    forall i, j :: 0 <= i < j < |s| ==> s[i] != s[j]
  }

  function RemoveAt<T>(s: seq<T>, k: nat): (r: seq<T>)
    requires k < |s|
  {
    s[..k] + s[k + 1..]
  }

  function InsertAt<T>(s: seq<T>, k: nat, x: T): (r: seq<T>)
    requires k <= |s|
  {
    s[..k] + [x] + s[k..]
  }

  lemma InsertAtDistinct<T>(s: seq<T>, k: nat, x: T)
    requires k <= |s| && Distinct(s) && x !in s
    ensures var r := InsertAt(s, k, x);
            && Distinct(r) && r[k] == x
            && (forall i {:trigger s[i]} :: 0 <= i < k ==> r[i] == s[i])
            && (forall i {:trigger s[i]} :: k <= i < |s| ==> r[i + 1] == s[i])
  {
    var r := InsertAt(s, k, x);
    forall i, j | 0 <= i < j < |r|
      ensures r[i] != r[j]
    {
      var i' := if i < k then i else i - 1;
      var j' := if j < k then j else j - 1;
      assert i == k || r[i] == s[i'];
      assert j == k || r[j] == s[j'];
    }
  }

  lemma RemoveAtMultiset<T>(s: seq<T>, k: nat)
    requires k < |s|
    ensures multiset(RemoveAt(s, k)) == multiset(s) - multiset{s[k]}
  {
    assert s == s[..k] + [s[k]] + s[k + 1..];
  }

  function Reverse<T>(s: seq<T>): (r: seq<T>) {
    if s == [] then [] else Reverse(s[1..]) + [s[0]]
  }

  function RotateLeft<T>(s: seq<T>): (r: seq<T>) {
    if s == [] then [] else s[1..] + [s[0]]
  }

  function RotateTimes<T>(s: seq<T>, n: nat): (r: seq<T>)
    decreases n
  {
    if n == 0 then s else RotateTimes(RotateLeft(s), n - 1)
  }

  /** Rotating `a + b` as often as `a` is long brings `b` to the front. */
  lemma {:induction false} RotatePrefix<T>(a: seq<T>, b: seq<T>)
    ensures RotateTimes(a + b, |a|) == b + a
    decreases |a|
  {
    if a == [] {
      assert a + b == b == b + a;
    } else {
      assert RotateLeft(a + b) == a[1..] + (b + [a[0]]);
      RotatePrefix(a[1..], b + [a[0]]);
      assert (b + [a[0]]) + a[1..] == b + a;
    }
  }

  /** Rotating a list of length n exactly n times is the identity. */
  lemma RotateFullTurn<T>(s: seq<T>)
    ensures RotateTimes(s, |s|) == s
  {
    RotatePrefix(s, []);
    assert s + [] == s == [] + s;
  }
}
