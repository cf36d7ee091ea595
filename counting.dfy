/** Cardinality facts behind the capacity argument: a pool of `n` slots is
    partitioned into the free list, the slots readers hold, and the slot the
    publisher is writing. */
module Counting {

  /** No slot occurs twice in the list. */
  predicate NoDup(s: seq<nat>)
  {
    forall j, k :: 0 <= j < k < |s| ==> s[j] != s[k]
  }

  /** The slot indices of a pool of `n` slots. */
  function Range(n: nat): set<nat>
  {
    if n == 0 then {} else Range(n - 1) + {n - 1}
  }

  function Elements(s: seq<nat>): set<nat>
  {
    set x | x in s
  }

  /** The slots with at least one outstanding reader reference. */
  function Holders(held: seq<nat>): set<nat>
  {
    set i: nat | i < |held| && held[i] > 0
  }

  lemma {:induction false} RangeSize(n: nat)
    ensures |Range(n)| == n
    ensures forall i: nat :: i in Range(n) <==> i < n
  {
    if n > 0 {
      RangeSize(n - 1);
    }
  }

  lemma NoDupPrepend(x: nat, s: seq<nat>)
    requires NoDup(s) && x !in s
    ensures NoDup([x] + s)
  {
    var t := [x] + s;
    forall j, k | 0 <= j < k < |t| ensures t[j] != t[k] {
      assert t[k] == s[k - 1];
      if j > 0 {
        assert t[j] == s[j - 1];
      }
    }
  }

  lemma NoDupTail(s: seq<nat>)
    requires NoDup(s) && s != []
    ensures NoDup(s[1..]) && s[0] !in s[1..]
  {
    forall j, k | 0 <= j < k < |s[1..]| ensures s[1..][j] != s[1..][k] {
      assert s[1..][j] == s[j + 1] && s[1..][k] == s[k + 1];
    }
  }

  lemma {:induction false} ElementsSize(s: seq<nat>)
    requires NoDup(s)
    ensures |Elements(s)| == |s|
  {
    if s != [] {
      NoDupTail(s);
      ElementsSize(s[1..]);
      assert Elements(s) == {s[0]} + Elements(s[1..]);
    }
  }

  /** When the free list holds exactly the unreferenced slots other than `n`
      (the publisher's slot), it is as long as the pool minus `n` minus the
      slots readers hold. */
  lemma FreeCount(free: seq<nat>, held: seq<nat>, n: nat)
    requires NoDup(free)
    requires n < |held| && held[n] == 0
    requires forall i: nat :: i in free <==> i < |held| && held[i] == 0 && i != n
    ensures |free| + |Holders(held)| + 1 == |held|
  {
    var f, h := Elements(free), Holders(held);
    ElementsSize(free);
    RangeSize(|held|);
    assert Range(|held|) == f + h + {n};
    assert f * h == {};
    assert |f + h| == |f| + |h|;
    assert n !in f + h;
  }
}
