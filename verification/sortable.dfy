/**
 * The reorder primitive of the sortable list: `arrayMove(a, from, to)` takes
 * the element at `from` out and inserts it again so that it ends up at `to`,
 * shifting the elements in between by one place.
 */
module Sortable {
  import opened Seqs

  /** `arrayMove(a, from, to)` for two positions of `a`. */
  function ArrayMove<T>(a: seq<T>, from: nat, to: nat): (r: seq<T>)
    requires from < |a| && to < |a|
    ensures |r| == |a|
    ensures r[to] == a[from]
    ensures multiset(r) == multiset(a)
  {
    var rest := a[..from] + a[from + 1..];
    assert a == a[..from] + [a[from]] + a[from + 1..];
    assert rest == rest[..to] + rest[to..];
    assert multiset(a) == multiset(a[..from]) + multiset{a[from]} + multiset(a[from + 1..]);
    assert multiset(rest) == multiset(rest[..to]) + multiset(rest[to..]);
    assert multiset(rest) == multiset(a[..from]) + multiset(a[from + 1..]);
    var moved := rest[..to] + [a[from]] + rest[to..];
    assert multiset(moved) == multiset(rest[..to]) + multiset{a[from]} + multiset(rest[to..]);
    assert multiset(moved) == multiset(rest) + multiset{a[from]};
    moved
  }

  /**
   * The position of the original sequence that position `k` of
   * `ArrayMove(a, from, to)` is taken from: the moved element lands on `to`,
   * the ones it passes over shift by one towards `from`, the rest stay put.
   */
  function MovedFrom(from: nat, to: nat, k: nat): nat {
    if k == to then from
    else if from < to && from <= k < to then k + 1
    else if to < from && to < k <= from then k - 1
    else k
  }

  /** `ArrayMove` is the rearrangement `MovedFrom` describes, position by position. */
  lemma ArrayMoveShifts<T>(a: seq<T>, from: nat, to: nat)
    requires from < |a| && to < |a|
    ensures forall k :: 0 <= k < |a| ==> MovedFrom(from, to, k) < |a|
    ensures forall k :: 0 <= k < |a| ==> ArrayMove(a, from, to)[k] == a[MovedFrom(from, to, k)]
  {
    var r := ArrayMove(a, from, to);
    var rest := a[..from] + a[from + 1..];
    assert |rest| == |a| - 1;
    forall k | 0 <= k < |a|
      ensures r[k] == a[MovedFrom(from, to, k)]
    {
      if k < to {
        assert r[k] == rest[k];
      } else if k > to {
        assert r[k] == rest[k - 1];
      }
    }
  }

  /** Distinct positions are taken from distinct positions: `MovedFrom` is a permutation of `[0, n)`. */
  lemma MovedFromInjective(n: nat, from: nat, to: nat, k1: nat, k2: nat)
    requires from < n && to < n && k1 < n && k2 < n
    requires MovedFrom(from, to, k1) == MovedFrom(from, to, k2)
    ensures k1 == k2
  {
  }

  /** Reordering never makes two entries equal: distinct ids stay distinct. */
  lemma ArrayMovePreservesDistinct<T>(a: seq<T>, from: nat, to: nat)
    requires from < |a| && to < |a|
    requires Distinct(a)
    ensures Distinct(ArrayMove(a, from, to))
  {
    var r := ArrayMove(a, from, to);
    ArrayMoveShifts(a, from, to);
    forall i, j | 0 <= i < j < |r|
      ensures r[i] != r[j]
    {
      if MovedFrom(from, to, i) == MovedFrom(from, to, j) {
        MovedFromInjective(|a|, from, to, i, j);
      }
    }
  }

  /** Moving the element back from `to` to `from` restores the original order. */
  lemma ArrayMoveUndo<T>(a: seq<T>, from: nat, to: nat)
    requires from < |a| && to < |a|
    ensures ArrayMove(ArrayMove(a, from, to), to, from) == a
  {
    var b := ArrayMove(a, from, to);
    var c := ArrayMove(b, to, from);
    ArrayMoveShifts(a, from, to);
    ArrayMoveShifts(b, to, from);
    forall k | 0 <= k < |a|
      ensures c[k] == a[k]
    {
      assert MovedFrom(from, to, MovedFrom(to, from, k)) == k;
    }
  }

  /** Moving an element onto its own position changes nothing. */
  lemma ArrayMoveInPlace<T>(a: seq<T>, i: nat)
    requires i < |a|
    ensures ArrayMove(a, i, i) == a
  {
    ArrayMoveShifts(a, i, i);
  }
}
