// Quick sort engine (app.py:108-129): Lomuto partition with the last
// element as pivot, one step per swap and one for placing the pivot. After
// partitioning [low, high] the engine recurses on [low, high - 1], not on
// the two sides of the pivot, so the result is a permutation of the input
// but not always sorted.

module QuickSort {
  import opened Steps

  /** Where partition(low, high) left the array, and the pivot's final position i + 1. */
  datatype Parted = Parted(run: Run, p: int)

  /** The loop `for j in range(j, high)` of partition and the placement
      after it, with i the end of the region of elements <= pivot. */
  function PartLoop(r: Run, low: int, high: int, pivot: int, i: int, j: int): (res: Parted)
    requires 0 <= low <= j <= high < |r.arr| && low - 1 <= i < j
    ensures |res.run.arr| == |r.arr| && i + 1 <= res.p <= high
    decreases high - j
  {
    if j == high then
      var a := Swap(r.arr, i + 1, high);
      Parted(Record(r, a, PlacedPivot(a[i + 1]), [i + 1, high]), i + 1)
    else if r.arr[j] <= pivot then
      var a := Swap(r.arr, i + 1, j);
      PartLoop(Record(r, a, SwappedPivot(a[i + 1], a[j], pivot), [i + 1, j]), low, high, pivot, i + 1, j + 1)
    else
      PartLoop(r, low, high, pivot, i, j + 1)
  }

  /** `partition(low, high)` with pivot arr[high]. */
  function Partition(r: Run, low: int, high: int): (res: Parted)
    requires 0 <= low < high < |r.arr|
    ensures |res.run.arr| == |r.arr| && low <= res.p <= high
  {
    PartLoop(r, low, high, r.arr[high], low - 1, low)
  }

  /** `quick_sort(arr, low, high)`: partition, then recurse on [low, high - 1]. */
  function QuickRun(r: Run, low: int, high: int): (r': Run)
    requires 0 <= low && high < |r.arr|
    ensures |r'.arr| == |r.arr|
    decreases high - low
  {
    if low < high then QuickRun(Partition(r, low, high).run, low, high - 1) else r
  }

  /** The whole run on input s: `quick_sort(arr)`, with high = len(arr) - 1. */
  function Quick(s: seq<int>): Run {
    QuickRun(Start(s), 0, |s| - 1)
  }

  /** b differs from a at most inside [low, high]. */
  ghost predicate SameOutside(a: seq<int>, b: seq<int>, low: int, high: int) {
    |a| == |b| && forall q :: 0 <= q < |a| && !(low <= q <= high) ==> b[q] == a[q]
  }

  /** The loop invariant of partition: a[low..i] <= pivot, a(i..j) > pivot,
      and the pivot still at high. */
  ghost predicate PartInv(a: seq<int>, low: int, high: int, pivot: int, i: int, j: int)
    requires 0 <= low && low - 1 <= i < j <= high < |a|
  {
    (forall q :: low <= q <= i ==> a[q] <= pivot) &&
    (forall q :: i < q < j ==> a[q] > pivot) &&
    a[high] == pivot
  }

  /** The partition from (i, j) on permutes the array. */
  lemma {:induction false} PartLoopPermutes(r: Run, low: int, high: int, pivot: int, i: int, j: int)
    requires 0 <= low <= j <= high < |r.arr| && low - 1 <= i < j
    ensures multiset(PartLoop(r, low, high, pivot, i, j).run.arr) == multiset(r.arr)
    decreases high - j
  {
    var a := r.arr;
    if j == high {
      SwapMultiset(a, i + 1, high);
    } else if a[j] <= pivot {
      var a' := Swap(a, i + 1, j);
      SwapMultiset(a, i + 1, j);
      PartLoopPermutes(Record(r, a', SwappedPivot(a'[i + 1], a'[j], pivot), [i + 1, j]), low, high, pivot, i + 1, j + 1);
    } else {
      PartLoopPermutes(r, low, high, pivot, i, j + 1);
    }
  }

  /** The partition from (i, j) on touches nothing outside [low, high]. */
  lemma {:induction false} PartLoopFrame(r: Run, low: int, high: int, pivot: int, i: int, j: int)
    requires 0 <= low <= j <= high < |r.arr| && low - 1 <= i < j
    ensures SameOutside(r.arr, PartLoop(r, low, high, pivot, i, j).run.arr, low, high)
    decreases high - j
  {
    var a := r.arr;
    if j == high {
      SwapPermutes(a, i + 1, high);
    } else if a[j] <= pivot {
      var a' := Swap(a, i + 1, j);
      SwapPermutes(a, i + 1, j);
      PartLoopFrame(Record(r, a', SwappedPivot(a'[i + 1], a'[j], pivot), [i + 1, j]), low, high, pivot, i + 1, j + 1);
    } else {
      PartLoopFrame(r, low, high, pivot, i, j + 1);
    }
  }

  /** A swap step of the loop keeps its invariant. */
  lemma SwapKeepsPartInv(a: seq<int>, low: int, high: int, pivot: int, i: int, j: int)
    requires 0 <= low <= j < high < |a| && low - 1 <= i < j
    requires PartInv(a, low, high, pivot, i, j) && a[j] <= pivot
    ensures PartInv(Swap(a, i + 1, j), low, high, pivot, i + 1, j + 1)
  {
    var b := Swap(a, i + 1, j);
    SwapPermutes(a, i + 1, j);
    forall q | low <= q <= i + 1
      ensures b[q] <= pivot
    {
      if q <= i {
        assert b[q] == a[q];
      }
    }
    forall q | i + 1 < q < j + 1
      ensures b[q] > pivot
    {
      if q < j {
        assert b[q] == a[q];
      } else {
        assert b[q] == a[i + 1];
      }
    }
  }

  /** The placement after the loop puts the pivot between the two regions. */
  lemma PlaceSplits(a: seq<int>, low: int, high: int, pivot: int, i: int)
    requires 0 <= low && low - 1 <= i < high < |a|
    requires PartInv(a, low, high, pivot, i, high)
    ensures var b := Swap(a, i + 1, high);
      && (forall q :: low <= q < i + 1 ==> b[q] <= pivot)
      && b[i + 1] == pivot
      && (forall q :: i + 1 < q <= high ==> b[q] > pivot)
  {
    var b := Swap(a, i + 1, high);
    SwapPermutes(a, i + 1, high);
    forall q | low <= q < i + 1
      ensures b[q] <= pivot
    {
      assert b[q] == a[q];
    }
    forall q | i + 1 < q <= high
      ensures b[q] > pivot
    {
      if q < high {
        assert b[q] == a[q];
      } else {
        assert b[q] == a[i + 1];
      }
    }
  }

  /** The partition from (i, j) on leaves a[low..p) <= pivot, a[p] = pivot
      and a(p..high] > pivot. */
  lemma {:induction false} PartLoopSplits(r: Run, low: int, high: int, pivot: int, i: int, j: int)
    requires 0 <= low <= j <= high < |r.arr| && low - 1 <= i < j
    requires PartInv(r.arr, low, high, pivot, i, j)
    ensures var res := PartLoop(r, low, high, pivot, i, j);
      var b := res.run.arr;
      && (forall q :: low <= q < res.p ==> b[q] <= pivot)
      && b[res.p] == pivot
      && (forall q :: res.p < q <= high ==> b[q] > pivot)
    decreases high - j
  {
    var a := r.arr;
    if j == high {
      PlaceSplits(a, low, high, pivot, i);
    } else if a[j] <= pivot {
      var a' := Swap(a, i + 1, j);
      SwapKeepsPartInv(a, low, high, pivot, i, j);
      var r1 := Record(r, a', SwappedPivot(a'[i + 1], a'[j], pivot), [i + 1, j]);
      PartLoopSplits(r1, low, high, pivot, i + 1, j + 1);
    } else {
      PartLoopSplits(r, low, high, pivot, i, j + 1);
    }
  }

  /** The number of "Placed pivot" entries in a log: one per partition. */
  function Placed(log: seq<Entry>): nat {
    if log == [] then 0
    else Placed(log[..|log| - 1]) + (if log[|log| - 1].PlacedPivot? then 1 else 0)
  }

  /** Entries that place no pivot leave the count alone. */
  lemma {:induction false} PlacedNone(log0: seq<Entry>, log: seq<Entry>)
    requires |log0| <= |log| && log[..|log0|] == log0
    requires forall k :: |log0| <= k < |log| ==> !log[k].PlacedPivot?
    ensures Placed(log) == Placed(log0)
    decreases |log|
  {
    if |log| > |log0| {
      var init := log[..|log| - 1];
      assert init[..|log0|] == log0;
      assert forall k :: |log0| <= k < |init| ==> init[k] == log[k];
      PlacedNone(log0, init);
    } else {
      assert log == log0;
    }
  }

  /** A log extended by non-placing entries and one final placing entry
      has placed one pivot more. */
  lemma PlacedOneMore(log0: seq<Entry>, log: seq<Entry>)
    requires |log0| < |log| && log[..|log0|] == log0 && log[|log| - 1].PlacedPivot?
    requires forall k :: |log0| <= k < |log| - 1 ==> !log[k].PlacedPivot?
    ensures Placed(log) == Placed(log0) + 1
  {
    var init := log[..|log| - 1];
    assert init[..|log0|] == log0;
    assert forall k :: |log0| <= k < |init| ==> init[k] == log[k];
    PlacedNone(log0, init);
  }

  /** The partition's log: every entry it adds but the last is a swap naming
      this pivot, and the last places the pivot, carrying its value; the step
      that goes with it highlights [p, high]. */
  lemma {:induction false} PartLoopLog(r: Run, low: int, high: int, pivot: int, i: int, j: int)
    requires 0 <= low <= j <= high < |r.arr| && low - 1 <= i < j && r.arr[high] == pivot
    ensures var res := PartLoop(r, low, high, pivot, i, j);
      var log, n := res.run.log, |res.run.log|;
      && n > |r.log| && log[..|r.log|] == r.log
      && (forall k :: |r.log| <= k < n - 1 ==> log[k].SwappedPivot? && log[k].pivot == pivot)
      && log[n - 1] == PlacedPivot(pivot)
      && res.run.trace != [] && res.run.trace[|res.run.trace| - 1].hl == [res.p, high]
    decreases high - j
  {
    var a := r.arr;
    if j == high {
      SwapPermutes(a, i + 1, high);
      var log := PartLoop(r, low, high, pivot, i, j).run.log;
      assert log[..|log| - 1] == r.log;
    } else if a[j] <= pivot {
      var a' := Swap(a, i + 1, j);
      SwapPermutes(a, i + 1, j);
      var r1 := Record(r, a', SwappedPivot(a'[i + 1], a'[j], pivot), [i + 1, j]);
      PartLoopLog(r1, low, high, pivot, i + 1, j + 1);
      var log := PartLoop(r1, low, high, pivot, i + 1, j + 1).run.log;
      assert r1.log[..|r.log|] == r.log;
      assert log[..|r.log|] == log[..|r1.log|][..|r.log|];
      assert log[|r.log|] == log[..|r1.log|][|r.log|];
      assert r1.log[..|r1.log| - 1] == r.log;
    } else {
      PartLoopLog(r, low, high, pivot, i, j + 1);
    }
  }

  lemma {:induction false} PartLoopTidy(s: seq<int>, r: Run, low: int, high: int, pivot: int, i: int, j: int)
    requires 0 <= low <= j <= high < |r.arr| && low - 1 <= i < j && Tidy(s, r)
    ensures Tidy(s, PartLoop(r, low, high, pivot, i, j).run)
    decreases high - j
  {
    var a := r.arr;
    if j == high {
      var a' := Swap(a, i + 1, high);
      SwapPermutes(a, i + 1, high);
      RecordKeepsShape(s, r, a', PlacedPivot(a'[i + 1]), [i + 1, high]);
    } else if a[j] <= pivot {
      var a' := Swap(a, i + 1, j);
      SwapPermutes(a, i + 1, j);
      RecordKeepsShape(s, r, a', SwappedPivot(a'[i + 1], a'[j], pivot), [i + 1, j]);
      PartLoopTidy(s, Record(r, a', SwappedPivot(a'[i + 1], a'[j], pivot), [i + 1, j]), low, high, pivot, i + 1, j + 1);
    } else {
      PartLoopTidy(s, r, low, high, pivot, i, j + 1);
    }
  }

  /** partition(low, high) splits [low, high] around the pivot arr[high]:
      with p = i + 1, arr[low..p) <= pivot, arr[p] = pivot, arr(p..high] > pivot;
      it permutes the array, touches nothing outside [low, high], and its last
      log entry places the pivot, carrying its value. */
  lemma PartitionCorrect(r: Run, low: int, high: int)
    requires 0 <= low < high < |r.arr|
    ensures var res, pivot := Partition(r, low, high), r.arr[high];
      var b, log := res.run.arr, res.run.log;
      && SameOutside(r.arr, b, low, high) && multiset(b) == multiset(r.arr)
      && (forall q :: low <= q < res.p ==> b[q] <= pivot)
      && b[res.p] == pivot
      && (forall q :: res.p < q <= high ==> b[q] > pivot)
      && |log| > |r.log| && log[..|r.log|] == r.log
      && (forall k :: |r.log| <= k < |log| - 1 ==> log[k].SwappedPivot? && log[k].pivot == pivot)
      && log[|log| - 1] == PlacedPivot(pivot)
      && Placed(log) == Placed(r.log) + 1
  {
    PartLoopPermutes(r, low, high, r.arr[high], low - 1, low);
    PartLoopFrame(r, low, high, r.arr[high], low - 1, low);
    PartLoopSplits(r, low, high, r.arr[high], low - 1, low);
    PartLoopLog(r, low, high, r.arr[high], low - 1, low);
    PlacedOneMore(r.log, Partition(r, low, high).run.log);
  }

  /** quick_sort(low, high) permutes the array and touches nothing outside [low, high]. */
  lemma {:induction false} QuickPermutes(r: Run, low: int, high: int)
    requires 0 <= low && high < |r.arr|
    ensures var b := QuickRun(r, low, high).arr;
      SameOutside(r.arr, b, low, high) && multiset(b) == multiset(r.arr)
    decreases high - low
  {
    if low < high {
      PartitionCorrect(r, low, high);
      QuickPermutes(Partition(r, low, high).run, low, high - 1);
    }
  }

  /** quick_sort(low, high) runs one partition per high from the given one
      down to low + 1: high - low of them, each placing one pivot. */
  lemma {:induction false} QuickPartitions(r: Run, low: int, high: int)
    requires 0 <= low && high < |r.arr|
    ensures var log := QuickRun(r, low, high).log;
      |log| >= |r.log| && log[..|r.log|] == r.log &&
      Placed(log) == Placed(r.log) + (if low < high then high - low else 0)
    decreases high - low
  {
    if low < high {
      PartitionCorrect(r, low, high);
      var r1 := Partition(r, low, high).run;
      QuickPartitions(r1, low, high - 1);
      var log := QuickRun(r1, low, high - 1).log;
      assert log[..|r.log|] == log[..|r1.log|][..|r.log|];
    }
  }

  lemma {:induction false} QuickTidy(s: seq<int>, r: Run, low: int, high: int)
    requires 0 <= low && high < |r.arr| && Tidy(s, r)
    ensures Tidy(s, QuickRun(r, low, high))
    decreases high - low
  {
    if low < high {
      PartLoopTidy(s, r, low, high, r.arr[high], low - 1, low);
      QuickTidy(s, Partition(r, low, high).run, low, high - 1);
    }
  }

  /** The quick engine permutes its input, runs n - 1 partitions for n >= 2
      (none otherwise, and then takes no step), logs one entry per step, and
      keeps snapshots well shaped. Inputs of up to two elements end sorted. */
  lemma QuickCorrect(s: seq<int>)
    ensures var r := Quick(s);
      && multiset(r.arr) == multiset(s) && Tidy(s, r)
      && Placed(r.log) == (if |s| >= 2 then |s| - 1 else 0)
      && (|s| <= 1 ==> r.arr == s && r.trace == [])
      && (|s| <= 2 ==> Sorted(r.arr))
  {
    QuickPermutes(Start(s), 0, |s| - 1);
    QuickPartitions(Start(s), 0, |s| - 1);
    QuickTidy(s, Start(s), 0, |s| - 1);
    if |s| == 2 {
      QuickSortsPair(s);
    }
  }

  /** On two elements the single partition, partition(0, 1), puts the
      smaller one first, and the recursion on [0, 0] stops. */
  lemma QuickSortsPair(s: seq<int>)
    requires |s| == 2
    ensures Sorted(Quick(s).arr)
  {
    var r1 := Partition(Start(s), 0, 1).run;
    PartitionCorrect(Start(s), 0, 1);
    assert Quick(s) == QuickRun(r1, 0, 0);
  }

  /** The engine does not always sort: [9, 5, 1, 3] ends as [1, 3, 9, 5]. */
  lemma NotAlwaysSorted()
    ensures Quick([9, 5, 1, 3]).arr == [1, 3, 9, 5] && !Sorted(Quick([9, 5, 1, 3]).arr)
  {
    var r0 := Start([9, 5, 1, 3]);
    var r1 := Partition(r0, 0, 3).run;
    assert r1.arr == [1, 3, 9, 5];
    var r2 := Partition(r1, 0, 2).run;
    assert r2.arr == [1, 3, 9, 5];
    var r3 := Partition(r2, 0, 1).run;
    assert r3.arr == [1, 3, 9, 5];
    assert Quick([9, 5, 1, 3]) == QuickRun(r3, 0, 0);
    assert !Sorted([1, 3, 9, 5]) by {
      assert [1, 3, 9, 5][2] > [1, 3, 9, 5][3];
    }
  }

  /** Three elements are already enough to go wrong: [2, 3, 1] ends as [1, 3, 2]. */
  lemma UnsortedOnThree()
    ensures Quick([2, 3, 1]).arr == [1, 3, 2] && !Sorted(Quick([2, 3, 1]).arr)
  {
    var r1 := Partition(Start([2, 3, 1]), 0, 2).run;
    assert r1.arr == [1, 3, 2];
    var r2 := Partition(r1, 0, 1).run;
    assert r2.arr == [1, 3, 2];
    assert Quick([2, 3, 1]) == QuickRun(r2, 0, 0);
    assert !Sorted([1, 3, 2]) by {
      assert [1, 3, 2][1] > [1, 3, 2][2];
    }
  }

  /** `partition(low, high)` on the working array; returns i + 1. */
  method PartitionRange(a: array<int>, low: int, high: int, log0: seq<Entry>, trace0: seq<Step>)
    returns (p: int, log: seq<Entry>, trace: seq<Step>)
    requires 0 <= low < high < a.Length
    modifies a
    ensures Parted(Run(a[..], log, trace), p) == Partition(Run(old(a[..]), log0, trace0), low, high)
  {
    log, trace := log0, trace0;
    var pivot := a[high];
    var i := low - 1;
    for j := low to high
      invariant low - 1 <= i < j
      invariant PartLoop(Run(a[..], log, trace), low, high, pivot, i, j)
             == Partition(Run(old(a[..]), log0, trace0), low, high)
    {
      ghost var cur := Run(a[..], log, trace);
      if a[j] <= pivot {
        i := i + 1;
        a[i], a[j] := a[j], a[i];
        assert a[..] == Swap(cur.arr, i, j);
        log := log + [SwappedPivot(a[i], a[j], pivot)];
        trace := trace + [Step(a[..], [i, j], log)];
      }
    }
    ghost var cur := Run(a[..], log, trace);
    a[i + 1], a[high] := a[high], a[i + 1];
    assert a[..] == Swap(cur.arr, i + 1, high);
    log := log + [PlacedPivot(a[i + 1])];
    trace := trace + [Step(a[..], [i + 1, high], log)];
    p := i + 1;
  }

  /** `quick_sort(arr, low, high, steps)` on the working array. */
  method SortRange(a: array<int>, low: int, high: int, log0: seq<Entry>, trace0: seq<Step>)
    returns (log: seq<Entry>, trace: seq<Step>)
    requires 0 <= low && high < a.Length
    modifies a
    ensures Run(a[..], log, trace) == QuickRun(Run(old(a[..]), log0, trace0), low, high)
    decreases high - low
  {
    log, trace := log0, trace0;
    if low < high {
      var p;
      p, log, trace := PartitionRange(a, low, high, log, trace);
      log, trace := SortRange(a, low, high - 1, log, trace);
    }
  }

  /** The engine on the working array: `quick_sort(arr)` drained to the end. */
  method Sort(a: array<int>) returns (trace: seq<Step>)
    modifies a
    ensures a[..] == Quick(old(a[..])).arr && trace == Quick(old(a[..])).trace
    ensures multiset(a[..]) == multiset(old(a[..]))
  {
    ghost var s := a[..];
    var log;
    log, trace := SortRange(a, 0, a.Length - 1, [], []);
    QuickCorrect(s);
  }
}
