/**
 The order-preserving "filter while iterating" at the heart of a scheduler pulse.

 A walk over a list makes one advance call per entry, in list order; the k-th
 call of the walk reports `outcome(k)`: `true` keeps the entry, `false` drops
 it. `Keep` is the list of survivors. Its reference description is
 `KeptIndices`: the strictly increasing list of exactly those positions whose
 call answered `true`. `KeepIsSelection` ties the two together.
 */
module Filter {

  /** The entries of `list` whose advance call answered `true`, in list order. */
  function Keep<T>(list: seq<T>, outcome: nat -> bool): (kept: seq<T>)
    ensures |kept| <= |list|
    ensures forall x :: x in kept ==> x in list
  {
    if |list| == 0 then []
    else Keep(list[..|list| - 1], outcome) + (if outcome(|list| - 1) then [list[|list| - 1]] else [])
  }

  /** The positions below `n` whose advance call answered `true`, ascending. */
  function KeptIndices(n: nat, outcome: nat -> bool): (idx: seq<nat>)
    ensures forall j :: 0 <= j < |idx| ==> idx[j] < n && outcome(idx[j])
    ensures forall j, k :: 0 <= j < k < |idx| ==> idx[j] < idx[k]
    ensures forall i :: 0 <= i < n && outcome(i) ==> i in idx
  {
    if n == 0 then []
    else KeptIndices(n - 1, outcome) + (if outcome(n - 1) then [n - 1] else [])
  }

  /** Entry `a` occurs somewhere before an occurrence of `b`. */
  ghost predicate Precedes<T>(list: seq<T>, a: T, b: T)
  {
    exists i, j :: 0 <= i < j < |list| && list[i] == a && list[j] == b
  }

  /** Keep is exactly the selection of `list` at the continuing positions. */
  lemma {:induction false} KeepIsSelection<T>(list: seq<T>, outcome: nat -> bool)
    ensures |Keep(list, outcome)| == |KeptIndices(|list|, outcome)|
    ensures forall j :: 0 <= j < |KeptIndices(|list|, outcome)| ==>
              Keep(list, outcome)[j] == list[KeptIndices(|list|, outcome)[j]]
  {
    if |list| > 0 {
      var n := |list|;
      var front := list[..n - 1];
      KeepIsSelection(front, outcome);
      var idx0 := KeptIndices(n - 1, outcome);
      var kept0 := Keep(front, outcome);
      assert Keep(list, outcome) == kept0 + (if outcome(n - 1) then [list[n - 1]] else []);
      assert KeptIndices(n, outcome) == idx0 + (if outcome(n - 1) then [n - 1] else []);
      forall j | 0 <= j < |idx0|
        ensures Keep(list, outcome)[j] == list[KeptIndices(n, outcome)[j]]
      {
        assert kept0[j] == front[idx0[j]];
      }
    }
  }

  /** Appending one entry appends it to the survivors exactly when its call continues. */
  lemma KeepSnoc<T>(list: seq<T>, x: T, outcome: nat -> bool)
    ensures Keep(list + [x], outcome) == Keep(list, outcome) + (if outcome(|list|) then [x] else [])
  {
  }

  /** No survivor is invented or duplicated: each handle survives at most as often as it occurs. */
  lemma {:induction false} KeepSubMultiset<T>(list: seq<T>, outcome: nat -> bool)
    ensures multiset(Keep(list, outcome)) <= multiset(list)
  {
    if |list| > 0 {
      var n := |list|;
      KeepSubMultiset(list[..n - 1], outcome);
      assert list == list[..n - 1] + [list[n - 1]];
    }
  }

  /** An entry whose call answered `true` survives. */
  lemma {:induction false} KeepContinuing<T>(list: seq<T>, outcome: nat -> bool, i: nat)
    requires i < |list| && outcome(i)
    ensures list[i] in Keep(list, outcome)
  {
    KeepIsSelection(list, outcome);
    var idx := KeptIndices(|list|, outcome);
    var j :| 0 <= j < |idx| && idx[j] == i;
    assert Keep(list, outcome)[j] == list[i];
  }

  /** A handle all of whose calls answered `false` does not survive. */
  lemma {:induction false} KeepDropsFinished<T>(list: seq<T>, outcome: nat -> bool, t: T)
    requires forall i :: 0 <= i < |list| && list[i] == t ==> !outcome(i)
    ensures t !in Keep(list, outcome)
  {
    if |list| > 0 {
      var n := |list|;
      var front := list[..n - 1];
      assert forall i :: 0 <= i < |front| && front[i] == t ==> !outcome(i) by {
        forall i | 0 <= i < |front| && front[i] == t
          ensures !outcome(i)
        {
          assert list[i] == front[i];
        }
      }
      KeepDropsFinished(front, outcome, t);
    }
  }

  /** Two continuing entries keep their relative order among the survivors. */
  lemma {:induction false} KeepPreservesOrder<T>(list: seq<T>, outcome: nat -> bool, i: nat, j: nat)
    requires i < j < |list| && outcome(i) && outcome(j)
    ensures Precedes(Keep(list, outcome), list[i], list[j])
  {
    var n := |list|;
    var front := list[..n - 1];
    var kept0 := Keep(front, outcome);
    assert Keep(list, outcome) == kept0 + (if outcome(n - 1) then [list[n - 1]] else []);
    if j == n - 1 {
      KeepContinuing(front, outcome, i);
      var p :| 0 <= p < |kept0| && kept0[p] == front[i];
      assert Keep(list, outcome)[p] == list[i];
      assert Keep(list, outcome)[|kept0|] == list[j];
    } else {
      KeepPreservesOrder(front, outcome, i, j);
      var p, q :| 0 <= p < q < |kept0| && kept0[p] == front[i] && kept0[q] == front[j];
      assert Keep(list, outcome)[p] == list[i] && Keep(list, outcome)[q] == list[j];
    }
  }
}
