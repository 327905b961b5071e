// Selection sort engine (app.py:64-74): one step per outer index,
// self-swaps included.

module SelectionSort {
  import opened Steps

  /** The scan `for j in range(j, n): if arr[j] < arr[m]: m = j`; the final m. */
  function MinIndex(s: seq<int>, j: int, m: int): (k: int)
    requires 0 <= m < j <= |s|
    ensures m <= k < |s|
    decreases |s| - j
  {
    if j == |s| then m else MinIndex(s, j + 1, if s[j] < s[m] then j else m)
  }

  /** The outer loop `for i in range(i, n)`: find the minimum, swap it into
      place, log the two values as they are after the swap, yield. */
  function Outer(r: Run, i: int): (r': Run)
    requires 0 <= i <= |r.arr|
    ensures |r'.arr| == |r.arr|
    decreases |r.arr| - i
  {
    if i == |r.arr| then r
    else
      var m := MinIndex(r.arr, i + 1, i);
      var a := Swap(r.arr, i, m);
      Outer(Record(r, a, SwappedWith(a[i], a[m]), [i, m]), i + 1)
  }

  /** One outer iteration, with the scan's result named m. */
  lemma OuterStep(r: Run, i: int, m: int)
    requires 0 <= i < |r.arr| && m == MinIndex(r.arr, i + 1, i)
    ensures var a := Swap(r.arr, i, m);
      Outer(r, i) == Outer(Record(r, a, SwappedWith(a[i], a[m]), [i, m]), i + 1)
  {
  }

  /** The whole run on input s. */
  function Selection(s: seq<int>): Run {
    Outer(Start(s), 0)
  }

  /** m is the first position of a minimum of s[i..]. */
  ghost predicate FirstMin(s: seq<int>, i: int, m: int) {
    0 <= i <= m < |s| &&
    (forall p :: i <= p < |s| ==> s[m] <= s[p]) &&
    (forall p :: i <= p < m ==> s[m] < s[p])
  }

  /** The scan finds the first occurrence of the minimum (the comparison is strict). */
  lemma {:induction false} MinIndexIsFirstMin(s: seq<int>, i: int, j: int, m: int)
    requires 0 <= i <= m < j <= |s|
    requires forall p :: i <= p < j ==> s[m] <= s[p]
    requires forall p :: i <= p < m ==> s[m] < s[p]
    ensures FirstMin(s, i, MinIndex(s, j, m))
    decreases |s| - j
  {
    if j < |s| {
      MinIndexIsFirstMin(s, i, j + 1, if s[j] < s[m] then j else m);
    }
  }

  /** The first i positions hold the i smallest elements in ascending order. */
  ghost predicate SortedPrefix(a: seq<int>, i: int) {
    forall p, q :: 0 <= p < q < |a| && p < i ==> a[p] <= a[q]
  }

  /** Step k of trace t on input s: it swapped the first minimum of before[k..]
      into position k (possibly with itself), highlighted [k, m], logged the
      two values read after the swap, and left the first k + 1 positions
      sorted below all the others. */
  ghost predicate SelectStepAt(s: seq<int>, t: seq<Step>, k: int)
    requires 0 <= k < |t|
  {
    var before, st := Before(s, t, k), t[k];
    |st.hl| == 2 && st.hl[0] == k && FirstMin(before, k, st.hl[1]) &&
    st.snapshot == Swap(before, k, st.hl[1]) &&
    st.log != [] && st.log[|st.log| - 1] == SwappedWith(st.snapshot[k], st.snapshot[st.hl[1]]) &&
    SortedPrefix(st.snapshot, k + 1)
  }

  /** What holds of the run after i outer iterations. */
  ghost predicate Valid(s: seq<int>, r: Run, i: int) {
    |r.arr| == |s| && |r.trace| == i && Shaped(r) && OnePerStep(r) && Current(s, r) &&
    multiset(r.arr) == multiset(s) && SortedPrefix(r.arr, i) &&
    forall k :: 0 <= k < |r.trace| ==> SelectStepAt(s, r.trace, k)
  }

  /** Swapping the first minimum of b[i..] into position i extends the sorted prefix. */
  lemma SwapExtendsPrefix(b: seq<int>, i: int, m: int)
    requires SortedPrefix(b, i) && FirstMin(b, i, m)
    ensures SortedPrefix(Swap(b, i, m), i + 1)
  {
    var a := Swap(b, i, m);
    SwapPermutes(b, i, m);
    forall p, q | 0 <= p < q < |a| && p < i + 1
      ensures a[p] <= a[q]
    {
      if q == m {
        assert a[q] == b[i];
      } else if q == i {
        assert a[q] == b[m];
      }
    }
  }

  /** Appending a step keeps what was said of the earlier ones. */
  lemma EarlierStepsKept(s: seq<int>, t: seq<Step>, st: Step)
    requires forall k :: 0 <= k < |t| ==> SelectStepAt(s, t, k)
    ensures forall k :: 0 <= k < |t| ==> SelectStepAt(s, t + [st], k)
  {
    forall k | 0 <= k < |t|
      ensures SelectStepAt(s, t + [st], k)
    {
      assert SelectStepAt(s, t, k);
      assert Before(s, t + [st], k) == Before(s, t, k);
    }
  }

  lemma SelectKeepsValid(s: seq<int>, r: Run, i: int)
    requires 0 <= i < |r.arr| && Valid(s, r, i)
    ensures var m := MinIndex(r.arr, i + 1, i);
      var a := Swap(r.arr, i, m);
      Valid(s, Record(r, a, SwappedWith(a[i], a[m]), [i, m]), i + 1)
  {
    var m := MinIndex(r.arr, i + 1, i);
    var a := Swap(r.arr, i, m);
    var st := Step(a, [i, m], r.log + [SwappedWith(a[i], a[m])]);
    MinIndexIsFirstMin(r.arr, i, i + 1, i);
    SwapPermutes(r.arr, i, m);
    RecordKeepsShape(s, r, a, SwappedWith(a[i], a[m]), [i, m]);
    SwapExtendsPrefix(r.arr, i, m);
    EarlierStepsKept(s, r.trace, st);
    NewStep(s, r, i);
  }

  lemma NewStep(s: seq<int>, r: Run, i: int)
    requires 0 <= i < |r.arr| && |r.trace| == i && Current(s, r) && SortedPrefix(r.arr, i)
    ensures var m := MinIndex(r.arr, i + 1, i);
      var a := Swap(r.arr, i, m);
      SelectStepAt(s, r.trace + [Step(a, [i, m], r.log + [SwappedWith(a[i], a[m])])], i)
  {
    var m := MinIndex(r.arr, i + 1, i);
    var a := Swap(r.arr, i, m);
    var t := r.trace + [Step(a, [i, m], r.log + [SwappedWith(a[i], a[m])])];
    MinIndexIsFirstMin(r.arr, i, i + 1, i);
    SwapExtendsPrefix(r.arr, i, m);
    assert Before(s, t, i) == r.arr;
  }

  lemma {:induction false} OuterKeepsValid(s: seq<int>, r: Run, i: int)
    requires 0 <= i <= |r.arr| && Valid(s, r, i)
    ensures Valid(s, Outer(r, i), |r.arr|)
    decreases |r.arr| - i
  {
    if i < |r.arr| {
      var m := MinIndex(r.arr, i + 1, i);
      var a := Swap(r.arr, i, m);
      SelectKeepsValid(s, r, i);
      OuterKeepsValid(s, Record(r, a, SwappedWith(a[i], a[m]), [i, m]), i + 1);
    }
  }

  /** The selection engine sorts and permutes, emits exactly n steps, and
      step k leaves the first k + 1 positions sorted and below the rest. */
  lemma SelectionCorrect(s: seq<int>)
    ensures var r := Selection(s);
      && Sorted(r.arr) && multiset(r.arr) == multiset(s)
      && |r.trace| == |s|
      && Shaped(r) && OnePerStep(r) && Current(s, r)
      && forall k :: 0 <= k < |r.trace| ==> SelectStepAt(s, r.trace, k)
  {
    OuterKeepsValid(s, Start(s), 0);
  }

  /** On sorted input the scan keeps the start position. */
  lemma {:induction false} MinIndexOfSorted(s: seq<int>, j: int, m: int)
    requires Sorted(s) && 0 <= m < j <= |s|
    ensures MinIndex(s, j, m) == m
    decreases |s| - j
  {
    if j < |s| {
      MinIndexOfSorted(s, j + 1, m);
    }
  }

  /** On sorted input an outer iteration swaps position i with itself. */
  lemma OuterStepOnSorted(s: seq<int>, r: Run, i: int)
    requires Sorted(s) && r.arr == s && 0 <= i < |s|
    ensures Outer(r, i) == Outer(Record(r, s, SwappedWith(s[i], s[i]), [i, i]), i + 1)
  {
    MinIndexOfSorted(s, i + 1, i);
    assert Swap(s, i, i) == s;
  }

  /** On sorted input the remaining outer iterations leave the array alone,
      one step each, after the steps already taken. */
  lemma {:induction false} OuterOnSortedKeeps(s: seq<int>, r: Run, i: int)
    requires Sorted(s) && r.arr == s && 0 <= i <= |s|
    ensures var r' := Outer(r, i);
      && r'.arr == s && |r'.trace| == |r.trace| + |s| - i
      && r'.trace[..|r.trace|] == r.trace
    decreases |s| - i
  {
    if i < |s| {
      var r1 := Record(r, s, SwappedWith(s[i], s[i]), [i, i]);
      OuterStepOnSorted(s, r, i);
      OuterOnSortedKeeps(s, r1, i + 1);
      var r' := Outer(r1, i + 1);
      var n0 := |r.trace|;
      assert r'.trace[..n0] == r'.trace[..n0 + 1][..n0];
    }
  }

  /** On sorted input every remaining outer iteration is a self-swap of its
      own index that shows the array unchanged; g is the offset of step
      numbers over i. */
  lemma {:induction false} OuterOnSorted(s: seq<int>, r: Run, i: int, g: int)
    requires Sorted(s) && r.arr == s && 0 <= i <= |s| && g == |r.trace| - i
    ensures var r' := Outer(r, i);
      forall k :: |r.trace| <= k < |r'.trace| ==>
        r'.trace[k].snapshot == s && r'.trace[k].hl == [k - g, k - g]
    decreases |s| - i
  {
    if i < |s| {
      var r1 := Record(r, s, SwappedWith(s[i], s[i]), [i, i]);
      OuterStepOnSorted(s, r, i);
      OuterOnSorted(s, r1, i + 1, g);
      OuterOnSortedKeeps(s, r1, i + 1);
      var r' := Outer(r1, i + 1);
      var n0 := |r.trace|;
      assert r'.trace[n0] == r'.trace[..n0 + 1][n0] == r1.trace[n0];
    }
  }

  /** Already sorted input still yields n steps, each a self-swap of step
      index k that leaves the array as it was. */
  lemma SelectionOnSorted(s: seq<int>)
    requires Sorted(s)
    ensures var t := Selection(s).trace;
      && |t| == |s|
      && forall k :: 0 <= k < |t| ==> t[k].snapshot == s && t[k].hl == [k, k]
  {
    OuterOnSortedKeeps(s, Start(s), 0);
    OuterOnSorted(s, Start(s), 0, 0);
  }

  /** The engine on the working array: `selection_sort(arr)` drained to the end. */
  method Sort(a: array<int>) returns (trace: seq<Step>)
    modifies a
    ensures a[..] == Selection(old(a[..])).arr && trace == Selection(old(a[..])).trace
    ensures Sorted(a[..]) && multiset(a[..]) == multiset(old(a[..])) && |trace| == a.Length
  {
    ghost var s := a[..];
    var log: seq<Entry> := [];
    trace := [];
    var n := a.Length;
    for i := 0 to n
      invariant Outer(Run(a[..], log, trace), i) == Selection(s)
    {
      var minIdx := i;
      for j := i + 1 to n
        invariant i <= minIdx < j
        invariant MinIndex(a[..], j, minIdx) == MinIndex(a[..], i + 1, i)
      {
        if a[j] < a[minIdx] {
          minIdx := j;
        }
      }
      ghost var cur := Run(a[..], log, trace);
      OuterStep(cur, i, minIdx);
      a[i], a[minIdx] := a[minIdx], a[i];
      assert a[..] == Swap(cur.arr, i, minIdx);
      log := log + [SwappedWith(a[i], a[minIdx])];
      trace := trace + [Step(a[..], [i, minIdx], log)];
    }
    SelectionCorrect(s);
  }
}
