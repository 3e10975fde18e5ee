/**
 * The array methods the image list is edited with (`findIndex`, `filter` by
 * index, `map` by index), as functions over sequences.
 */
module Seqs {

  /** No value occurs twice. */
  ghost predicate Distinct<T>(a: seq<T>) {
    forall i, j :: 0 <= i < j < |a| ==> a[i] != a[j]
  }

  /** Two sequences without repeats and without a common value concatenate to one without repeats. */
  lemma DistinctConcat<T>(a: seq<T>, b: seq<T>)
    requires Distinct(a) && Distinct(b)
    requires forall i, j :: 0 <= i < |a| && 0 <= j < |b| ==> a[i] != b[j]
    ensures Distinct(a + b)
  {
    forall i, j | 0 <= i < j < |a + b|
      ensures (a + b)[i] != (a + b)[j]
    {
      if j < |a| {
      } else if i < |a| {
        assert (a + b)[j] == b[j - |a|];
      } else {
        assert (a + b)[i] == b[i - |a|] && (a + b)[j] == b[j - |a|];
      }
    }
  }

  /** `a.findIndex(y => y === x)`: the first position holding `x`, or -1. */
  function FindIndex<T(==)>(a: seq<T>, x: T): (r: int)
    ensures -1 <= r < |a|
    ensures r == -1 <==> x !in a
    ensures 0 <= r ==> a[r] == x && forall j :: 0 <= j < r ==> a[j] != x
  {
    if |a| == 0 then -1
    else if a[0] == x then 0
    else var k := FindIndex(a[1..], x); if k == -1 then -1 else k + 1
  }

  /** In a sequence without repeats, `findIndex` finds the one position holding the value. */
  lemma FindIndexOfDistinct<T>(a: seq<T>, i: int)
    requires Distinct(a)
    requires 0 <= i < |a|
    ensures FindIndex(a, a[i]) == i
  {
  }

  /** `a.filter((_, j) => j !== i)`: walks every position and keeps all but position `i`. */
  function ExceptIndex<T>(a: seq<T>, i: int): (r: seq<T>)
    ensures 0 <= i < |a| ==> r == a[..i] + a[i + 1..]
    ensures !(0 <= i < |a|) ==> r == a
    decreases |a|
  {
    if |a| == 0 then []
    else
      var n := |a| - 1;
      var front := ExceptIndex(a[..n], i);
      assert a[..n][..] == a[..n];
      if n != i then front + [a[n]] else front
  }

  /** Past the dropped position every element moves one place to the front. */
  lemma ExceptIndexShifts<T>(a: seq<T>, i: int)
    requires 0 <= i < |a|
    ensures forall k :: 0 <= k < |a| - 1 ==> ExceptIndex(a, i)[k] == a[if k < i then k else k + 1]
  {
  }

  /** `a.map((y, j) => j === i ? x : y)`: walks every position and swaps in `x` at position `i`. */
  function ReplaceIndex<T>(a: seq<T>, i: int, x: T): (r: seq<T>)
    ensures |r| == |a|
    ensures 0 <= i < |a| ==> r[i] == x
    ensures forall j :: 0 <= j < |a| && j != i ==> r[j] == a[j]
    decreases |a|
  {
    if |a| == 0 then []
    else
      var n := |a| - 1;
      ReplaceIndex(a[..n], i, x) + [if n == i then x else a[n]]
  }
}
