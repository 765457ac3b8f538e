/**
  The two in-place shifts that ArrayMap and ArraySet perform on their
  backing arrays with `slice.swap`: a run of slots moves one place right to
  open a slot for an insertion, or one place left to close the slot of a
  removal. Both are written as the source writes them, a loop of adjacent
  swaps.
*/
module Shifting {

  /**
    `for j in ((i + 1)..=n).rev() { slice.swap(j - 1, j) }`: the slot at n
    travels down to i and every slot of [i, n) moves up by one.
  */
  method ShiftRight<T>(a: array<T>, i: nat, n: nat)
    requires i <= n < a.Length
    modifies a
    ensures forall k :: 0 <= k < i ==> a[k] == old(a[k])
    ensures a[i] == old(a[n])
    ensures forall k :: i < k <= n ==> a[k] == old(a[k - 1])
    ensures forall k :: n < k < a.Length ==> a[k] == old(a[k])
  {
    var j := n;
    while j > i
      invariant i <= j <= n
      invariant forall k :: 0 <= k < j ==> a[k] == old(a[k])
      invariant a[j] == old(a[n])
      invariant forall k :: j < k <= n ==> a[k] == old(a[k - 1])
      invariant forall k :: n < k < a.Length ==> a[k] == old(a[k])
    {
      a[j - 1], a[j] := a[j], a[j - 1];
      j := j - 1;
    }
  }

  /**
    `for j in (i + 1)..n { slice.swap(j - 1, j) }`: the slot at i travels up
    to n - 1 and every slot of (i, n) moves down by one.
  */
  method ShiftLeft<T>(a: array<T>, i: nat, n: nat)
    requires i < n <= a.Length
    modifies a
    ensures forall k :: 0 <= k < i ==> a[k] == old(a[k])
    ensures forall k :: i <= k < n - 1 ==> a[k] == old(a[k + 1])
    ensures a[n - 1] == old(a[i])
    ensures forall k :: n <= k < a.Length ==> a[k] == old(a[k])
  {
    var j := i + 1;
    while j < n
      invariant i + 1 <= j <= n
      invariant forall k :: 0 <= k < i ==> a[k] == old(a[k])
      invariant forall k :: i <= k < j - 1 ==> a[k] == old(a[k + 1])
      invariant a[j - 1] == old(a[i])
      invariant forall k :: j <= k < a.Length ==> a[k] == old(a[k])
    {
      a[j - 1], a[j] := a[j], a[j - 1];
      j := j + 1;
    }
  }
}
