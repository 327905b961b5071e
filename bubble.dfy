// Bubble sort engine (app.py:54-62): one step per adjacent swap.

module BubbleSort {
  import opened Steps
  import opened Counting

  /** Pass i of the outer loop, from inner index j on:
      `for j in range(j, n - i - 1): if arr[j] > arr[j + 1]: log, swap, yield`. */
  function Pass(r: Run, i: int, j: int): (r': Run)
    requires 0 <= i < |r.arr| && 0 <= j <= |r.arr| - i - 1
    ensures |r'.arr| == |r.arr|
    decreases |r.arr| - i - 1 - j
  {
    if j == |r.arr| - i - 1 then r
    else if r.arr[j] > r.arr[j + 1] then
      Pass(Record(r, Swap(r.arr, j, j + 1), Swapped(r.arr[j], r.arr[j + 1]), [j, j + 1]), i, j + 1)
    else
      Pass(r, i, j + 1)
  }

  /** The outer loop `for i in range(i, n)`. */
  function Passes(r: Run, i: int): (r': Run)
    requires 0 <= i <= |r.arr|
    ensures |r'.arr| == |r.arr|
    decreases |r.arr| - i
  {
    if i == |r.arr| then r else Passes(Pass(r, i, 0), i + 1)
  }

  /** One turn of the inner loop. */
  lemma PassStep(r: Run, i: int, j: int)
    requires 0 <= i < |r.arr| && 0 <= j < |r.arr| - i - 1
    ensures r.arr[j] > r.arr[j + 1] ==>
      Pass(r, i, j) == Pass(Record(r, Swap(r.arr, j, j + 1), Swapped(r.arr[j], r.arr[j + 1]), [j, j + 1]), i, j + 1)
    ensures r.arr[j] <= r.arr[j + 1] ==> Pass(r, i, j) == Pass(r, i, j + 1)
  {
  }

  /** The whole run on input s: final array, log and trace. */
  function Bubble(s: seq<int>): Run {
    Passes(Start(s), 0)
  }

  /** Step st swapped the adjacent pair (j, j + 1) of `before`, which was out of
      order, and the last log entry names the two values in their old order. */
  ghost predicate SwapStep(before: seq<int>, st: Step) {
    |st.hl| == 2 && 0 <= st.hl[0] && st.hl[1] == st.hl[0] + 1 && st.hl[1] < |before| &&
    before[st.hl[0]] > before[st.hl[1]] &&
    st.snapshot == Swap(before, st.hl[0], st.hl[1]) &&
    st.log != [] && st.log[|st.log| - 1] == Swapped(before[st.hl[0]], before[st.hl[1]])
  }

  /** Step k of trace t, on input s, is such a swap. */
  ghost predicate SwapStepAt(s: seq<int>, t: seq<Step>, k: int)
    requires 0 <= k < |t|
  {
    SwapStep(Before(s, t, k), t[k])
  }

  /** What holds of a partial bubble run r on input s. */
  ghost predicate Valid(s: seq<int>, r: Run) {
    |r.arr| == |s| && Shaped(r) && OnePerStep(r) && Current(s, r) &&
    (forall k :: 0 <= k < |r.trace| ==> SwapStepAt(s, r.trace, k)) &&
    multiset(r.arr) == multiset(s) &&
    |r.trace| + Inversions(r.arr) == Inversions(s)
  }

  lemma SwapKeepsValid(s: seq<int>, r: Run, j: int)
    requires Valid(s, r) && 0 <= j && j + 1 < |r.arr| && r.arr[j] > r.arr[j + 1]
    ensures Valid(s, Record(r, Swap(r.arr, j, j + 1), Swapped(r.arr[j], r.arr[j + 1]), [j, j + 1]))
  {
    var r' := Record(r, Swap(r.arr, j, j + 1), Swapped(r.arr[j], r.arr[j + 1]), [j, j + 1]);
    SwapPermutes(r.arr, j, j + 1);
    SwapAdjacentInversion(r.arr, j);
    RecordKeepsShape(s, r, Swap(r.arr, j, j + 1), Swapped(r.arr[j], r.arr[j + 1]), [j, j + 1]);
    forall k | 0 <= k < |r'.trace|
      ensures SwapStepAt(s, r'.trace, k)
    {
      if k < |r.trace| {
        assert SwapStepAt(s, r.trace, k);
        assert Before(s, r'.trace, k) == Before(s, r.trace, k);
      } else {
        assert Before(s, r'.trace, k) == r.arr;
      }
    }
  }

  lemma {:induction false} PassKeepsValid(s: seq<int>, r: Run, i: int, j: int)
    requires Valid(s, r) && 0 <= i < |r.arr| && 0 <= j <= |r.arr| - i - 1
    ensures Valid(s, Pass(r, i, j))
    decreases |r.arr| - i - 1 - j
  {
    if j < |r.arr| - i - 1 {
      if r.arr[j] > r.arr[j + 1] {
        var r1 := Record(r, Swap(r.arr, j, j + 1), Swapped(r.arr[j], r.arr[j + 1]), [j, j + 1]);
        SwapKeepsValid(s, r, j);
        PassKeepsValid(s, r1, i, j + 1);
      } else {
        PassKeepsValid(s, r, i, j + 1);
      }
    }
  }

  lemma {:induction false} PassesKeepValid(s: seq<int>, r: Run, i: int)
    requires Valid(s, r) && 0 <= i <= |r.arr|
    ensures Valid(s, Passes(r, i))
    decreases |r.arr| - i
  {
    if i < |r.arr| {
      PassKeepsValid(s, r, i, 0);
      PassesKeepValid(s, Pass(r, i, 0), i + 1);
    }
  }

  /** Pass i permutes the array and leaves arr[n - i..] alone. */
  lemma {:induction false} PassFrame(r: Run, i: int, j: int)
    requires 0 <= i < |r.arr| && 0 <= j <= |r.arr| - i - 1
    ensures Pass(r, i, j).arr[|r.arr| - i..] == r.arr[|r.arr| - i..]
    ensures multiset(Pass(r, i, j).arr) == multiset(r.arr)
    decreases |r.arr| - i - 1 - j
  {
    if j < |r.arr| - i - 1 {
      if r.arr[j] > r.arr[j + 1] {
        var a := Swap(r.arr, j, j + 1);
        var r1 := Record(r, a, Swapped(r.arr[j], r.arr[j + 1]), [j, j + 1]);
        assert Pass(r, i, j) == Pass(r1, i, j + 1);
        SwapPermutes(r.arr, j, j + 1);
        assert a[|r.arr| - i..] == r.arr[|r.arr| - i..];
        PassFrame(r1, i, j + 1);
      } else {
        PassFrame(r, i, j + 1);
      }
    }
  }

  /** Pass i carries the largest of arr[..n - i] to position n - i - 1. */
  lemma {:induction false} PassBubblesMax(r: Run, i: int, j: int)
    requires 0 <= i < |r.arr| && 0 <= j <= |r.arr| - i - 1
    requires forall k :: 0 <= k <= j ==> r.arr[k] <= r.arr[j]
    ensures forall k :: 0 <= k <= |r.arr| - i - 1 ==> Pass(r, i, j).arr[k] <= Pass(r, i, j).arr[|r.arr| - i - 1]
    decreases |r.arr| - i - 1 - j
  {
    if j < |r.arr| - i - 1 {
      if r.arr[j] > r.arr[j + 1] {
        var a := Swap(r.arr, j, j + 1);
        var r1 := Record(r, a, Swapped(r.arr[j], r.arr[j + 1]), [j, j + 1]);
        assert Pass(r, i, j) == Pass(r1, i, j + 1);
        assert forall k :: 0 <= k <= j + 1 ==> a[k] <= a[j + 1];
        PassBubblesMax(r1, i, j + 1);
      } else {
        PassBubblesMax(r, i, j + 1);
      }
    }
  }

  /** arr[m..] is sorted and holds the largest elements. */
  ghost predicate SortedTail(a: seq<int>, m: int) {
    forall p, q :: 0 <= p < q < |a| && m <= q ==> a[p] <= a[q]
  }

  lemma {:induction false} PassesSort(r: Run, i: int)
    requires 0 <= i <= |r.arr| && SortedTail(r.arr, |r.arr| - i)
    ensures Sorted(Passes(r, i).arr)
    decreases |r.arr| - i
  {
    var n := |r.arr|;
    if i < n {
      var e := n - i - 1;
      var r1 := Pass(r, i, 0);
      PassFrame(r, i, 0);
      PassBubblesMax(r, i, 0);
      var a, b := r.arr, r1.arr;
      SegmentPermutation(b, a, 0, e + 1);
      assert b[..0] == a[..0];
      assert b[0..e + 1] == b[..e + 1] && a[0..e + 1] == a[..e + 1];
      forall p, q | 0 <= p < q < n && e <= q
        ensures b[p] <= b[q]
      {
        if q > e {
          assert a[e + 1..][q - e - 1] == b[e + 1..][q - e - 1];
          if p <= e {
            InPermutation(b[..e + 1], a[..e + 1], p);
            var p' :| 0 <= p' < e + 1 && a[..e + 1][p'] == b[..e + 1][p];
          } else {
            assert a[e + 1..][p - e - 1] == b[e + 1..][p - e - 1];
          }
        }
      }
      PassesSort(r1, i + 1);
    }
  }

  /** The bubble engine sorts, permutes, takes one step per inversion of
      its input (so none exactly when the input is already sorted), and every
      step is a logged swap of an adjacent out-of-order pair. */
  lemma BubbleCorrect(s: seq<int>)
    ensures var r := Bubble(s);
      && Sorted(r.arr) && multiset(r.arr) == multiset(s)
      && |r.trace| == Inversions(s)
      && (r.trace == [] <==> Sorted(s))
      && Shaped(r) && OnePerStep(r) && Current(s, r)
      && forall k :: 0 <= k < |r.trace| ==> SwapStepAt(s, r.trace, k)
  {
    var r := Bubble(s);
    PassesKeepValid(s, Start(s), 0);
    assert SortedTail(s, |s|);
    PassesSort(Start(s), 0);
    InversionsZeroIffSorted(r.arr);
    InversionsZeroIffSorted(s);
  }

  /** The engine itself, on the working array: `bubble_sort(arr)` drained to the end. */
  method Sort(a: array<int>) returns (trace: seq<Step>)
    modifies a
    ensures a[..] == Bubble(old(a[..])).arr && trace == Bubble(old(a[..])).trace
    ensures Sorted(a[..]) && multiset(a[..]) == multiset(old(a[..]))
    ensures |trace| == Inversions(old(a[..]))
  {
    ghost var s := a[..];
    var log: seq<Entry> := [];
    trace := [];
    var n := a.Length;
    for i := 0 to n
      invariant Passes(Run(a[..], log, trace), i) == Bubble(s)
    {
      var j := 0;
      while j < n - i - 1
        invariant 0 <= j <= n - i - 1
        invariant Passes(Pass(Run(a[..], log, trace), i, j), i + 1) == Bubble(s)
      {
        ghost var cur := Run(a[..], log, trace);
        PassStep(cur, i, j);
        if a[j] > a[j + 1] {
          log := log + [Swapped(a[j], a[j + 1])];
          a[j], a[j + 1] := a[j + 1], a[j];
          trace := trace + [Step(a[..], [j, j + 1], log)];
          assert a[..] == Swap(cur.arr, j, j + 1);
        }
        j := j + 1;
      }
    }
    BubbleCorrect(s);
  }
}
