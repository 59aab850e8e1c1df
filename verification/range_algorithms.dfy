/** The in-place pairwise combine loop that vector `+=` and `-=` are built on. */
module RangeAlgorithms {

  /** Models `zip_elements(first, last, secFirst, op)`: for every position `i` of the
      half-open range `[first, last)` of `a`, in increasing order, the element is replaced
      by `op(element, paired element of b)`, where the pairing starts at `secFirst`.
      `b` is a value parameter, so it is only read. `visited` records the positions
      written, in the order the loop writes them. */
  method ZipElements<T, U>(a: seq<T>, first: nat, last: nat, b: seq<U>, secFirst: nat, op: (T, U) -> T)
    returns (r: seq<T>, visited: seq<nat>)
    requires first <= last <= |a|
    requires secFirst + (last - first) <= |b|
    ensures |r| == |a|
    ensures forall i :: first <= i < last ==> r[i] == op(a[i], b[secFirst + (i - first)])
    ensures forall i :: 0 <= i < |a| && !(first <= i < last) ==> r[i] == a[i]
    ensures |visited| == last - first
    ensures forall k :: 0 <= k < |visited| ==> visited[k] == first + k
  {
    r := a;
    visited := [];
    var i := first;
    var j := secFirst;
    while i != last
      invariant first <= i <= last
      invariant j == secFirst + (i - first)
      invariant |r| == |a|
      invariant forall k :: first <= k < i ==> r[k] == op(a[k], b[secFirst + (k - first)])
      invariant forall k :: 0 <= k < |a| && !(first <= k < i) ==> r[k] == a[k]
      invariant |visited| == i - first
      invariant forall k :: 0 <= k < |visited| ==> visited[k] == first + k
      decreases last - i
    {
      r := r[i := op(r[i], b[j])];
      visited := visited + [i];
      i := i + 1;
      j := j + 1;
    }
  }
}
