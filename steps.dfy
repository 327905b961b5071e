// The data every sorting engine emits: log entries, trace steps and the
// state of one run (working array, log so far, steps emitted so far).

module Steps {

  /** One line of the step log, carrying the values the engine formats into it. */
  datatype Entry =
    | Swapped(a: int, b: int)                    // bubble:    "Swapped {a} and {b}"
    | SwappedWith(a: int, b: int)                // selection: "Swapped {a} with {b}"
    | Moved(v: int, key: int)                    // insertion: "Moved {v} after {key}"
    | Inserted(v: int, k: int)                   // merge:     "Inserted {v} at position {k}"
    | SwappedPivot(a: int, b: int, pivot: int)   // quick:     "Swapped {a} and {b} (pivot {pivot})"
    | PlacedPivot(v: int)                        // quick:     "Placed pivot {v} at correct position"

  /** What one `yield` hands to the consumer: a copy of the array, the
      positions just touched and a copy of the log so far. */
  datatype Step = Step(snapshot: seq<int>, hl: seq<int>, log: seq<Entry>)

  /** The state of a run: the working array, the shared log and the steps
      yielded so far, in order. A consumer that stops pulling after k steps
      has seen exactly trace[..k]. */
  datatype Run = Run(arr: seq<int>, log: seq<Entry>, trace: seq<Step>)

  function Start(s: seq<int>): Run {
    Run(s, [], [])
  }

  /** `steps.append(e)` */
  function Append(r: Run, e: Entry): Run {
    r.(log := r.log + [e])
  }

  /** `yield arr, hl, steps.copy()` */
  function Yield(r: Run, hl: seq<int>): Run {
    r.(trace := r.trace + [Step(r.arr, hl, r.log)])
  }

  /** `arr[i], arr[j] = arr[j], arr[i]` */
  function Swap(s: seq<int>, i: int, j: int): seq<int>
    requires 0 <= i < |s| && 0 <= j < |s|
  {
    s[i := s[j]][j := s[i]]
  }

  predicate Sorted(s: seq<int>) {
    forall p, q :: 0 <= p < q < |s| ==> s[p] <= s[q]
  }

  predicate InBounds(hl: seq<int>, n: int) {
    forall h :: h in hl ==> 0 <= h < n
  }

  /** Every snapshot has the array's length and highlights only valid positions. */
  ghost predicate Shaped(r: Run) {
    forall k :: 0 <= k < |r.trace| ==>
      |r.trace[k].snapshot| == |r.arr| && InBounds(r.trace[k].hl, |r.arr|)
  }

  /** The log grows by exactly one entry per step: step k carries the first
      k + 1 entries, and the log holds one entry per step. */
  ghost predicate OnePerStep(r: Run) {
    |r.log| == |r.trace| &&
    forall k :: 0 <= k < |r.trace| ==> r.trace[k].log == r.log[..k + 1]
  }

  /** The array a step was taken from: the run's input for the first step,
      the previous snapshot for the others. */
  function Before(input: seq<int>, t: seq<Step>, k: int): seq<int>
    requires 0 <= k <= |t|
  {
    if k == 0 then input else t[k - 1].snapshot
  }

  /** The state of r is the one its last step showed (or the input when no step was taken). */
  ghost predicate Current(input: seq<int>, r: Run) {
    r.arr == Before(input, r.trace, |r.trace|)
  }

  /** What every run keeps: well-shaped snapshots, one log entry per step,
      and the array the last step showed. */
  ghost predicate Tidy(input: seq<int>, r: Run) {
    Shaped(r) && OnePerStep(r) && Current(input, r)
  }

  lemma {:induction false} SwapPermutes(s: seq<int>, i: int, j: int)
    requires 0 <= i < |s| && 0 <= j < |s|
    ensures |Swap(s, i, j)| == |s|
    ensures multiset(Swap(s, i, j)) == multiset(s)
    ensures Swap(s, i, j)[i] == s[j] && Swap(s, i, j)[j] == s[i]
    ensures forall k :: 0 <= k < |s| && k != i && k != j ==> Swap(s, i, j)[k] == s[k]
  {
    SwapMultiset(s, i, j);
  }

  /** A swap keeps the elements. */
  lemma SwapMultiset(s: seq<int>, i: int, j: int)
    requires 0 <= i < |s| && 0 <= j < |s|
    ensures multiset(Swap(s, i, j)) == multiset(s)
  {
    if s[i] == s[j] {
      assert Swap(s, i, j) == s;
    } else {
      var t := s[i := s[j]];
      assert multiset(t) == multiset(s) - multiset{s[i]} + multiset{s[j]};
      assert multiset(t[j := s[i]]) == multiset(t) - multiset{s[j]} + multiset{s[i]};
    }
  }

  /** Every element of a permutation of u occurs in u. */
  lemma InPermutation(t: seq<int>, u: seq<int>, p: int)
    requires multiset(t) == multiset(u) && 0 <= p < |t|
    ensures exists q :: 0 <= q < |u| && u[q] == t[p]
  {
    assert t[p] in multiset(u);
  }

  /** Two arrays that are permutations of each other and agree outside
      [lo, hi) are permutations of each other on [lo, hi). */
  lemma SegmentPermutation(a: seq<int>, b: seq<int>, lo: int, hi: int)
    requires |a| == |b| && 0 <= lo <= hi <= |a| && multiset(a) == multiset(b)
    requires a[..lo] == b[..lo] && a[hi..] == b[hi..]
    ensures multiset(a[lo..hi]) == multiset(b[lo..hi])
  {
    assert a == a[..lo] + a[lo..hi] + a[hi..];
    assert b == b[..lo] + b[lo..hi] + b[hi..];
    assert multiset(a) == multiset(a[..lo]) + multiset(a[lo..hi]) + multiset(a[hi..]);
    assert multiset(b) == multiset(b[..lo]) + multiset(b[lo..hi]) + multiset(b[hi..]);
    forall x
      ensures multiset(a[lo..hi])[x] == multiset(b[lo..hi])[x]
    {
      assert multiset(a)[x] == multiset(a[..lo])[x] + multiset(a[lo..hi])[x] + multiset(a[hi..])[x];
      assert multiset(b)[x] == multiset(b[..lo])[x] + multiset(b[lo..hi])[x] + multiset(b[hi..])[x];
    }
  }

  /** The elements of a, counted by the three parts [..x], [x..y], [y..]. */
  lemma MultisetSplit(a: seq<int>, x: int, y: int)
    requires 0 <= x <= y <= |a|
    ensures multiset(a) == multiset(a[..x]) + multiset(a[x..y]) + multiset(a[y..])
  {
    assert a == a[..x] + a[x..y] + a[y..];
  }

  /** A step that writes the array, logs one entry and yields:
      `arr = a; steps.append(e); yield arr, hl, steps.copy()`. */
  function Record(r: Run, a: seq<int>, e: Entry, hl: seq<int>): Run {
    Yield(Append(r.(arr := a), e), hl)
  }

  /** Such a step keeps snapshots well shaped and the log at one entry per step,
      and its snapshot is the new state. */
  lemma RecordKeepsShape(s: seq<int>, r: Run, a: seq<int>, e: Entry, hl: seq<int>)
    requires Shaped(r) && OnePerStep(r) && |a| == |r.arr| && InBounds(hl, |a|)
    ensures var r' := Record(r, a, e, hl);
      Shaped(r') && OnePerStep(r') && Current(s, r') &&
      r'.arr == a && r'.trace == r.trace + [Step(a, hl, r.log + [e])]
  {
    var r' := Record(r, a, e, hl);
    forall k | 0 <= k < |r'.trace|
      ensures r'.trace[k].log == r'.log[..k + 1]
    {
      if k < |r.trace| {
        assert r'.log[..k + 1] == r.log[..k + 1];
      } else {
        assert r'.log[..k + 1] == r'.log;
      }
    }
  }
}
