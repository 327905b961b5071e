// Merge sort engine (app.py:89-106): recursive top-down merge sort whose
// merge writes one element per position k of [l, r) and yields after each.

module MergeSort {
  import opened Steps

  /** The merge's choice `j >= len(right) or (i < len(left) and left[i] < right[j])`:
      take from the left buffer. The comparison is strict, so ties go right. */
  predicate TakeLeft(left: seq<int>, right: seq<int>, i: int, j: int)
    requires 0 <= i <= |left| && 0 <= j <= |right|
  {
    j >= |right| || (i < |left| && left[i] < right[j])
  }

  /** The merge loop `for k in range(k, r)` with k = l + i + j:
      write the chosen element at k, log it, yield [k]. */
  function MergeLoop(r: Run, l: int, left: seq<int>, right: seq<int>, i: int, j: int): (r': Run)
    requires 0 <= l && 0 <= i <= |left| && 0 <= j <= |right| && l + |left| + |right| <= |r.arr|
    ensures |r'.arr| == |r.arr|
    decreases |left| + |right| - i - j
  {
    var k := l + i + j;
    if i + j == |left| + |right| then r
    else if TakeLeft(left, right, i, j) then
      MergeLoop(Record(r, r.arr[k := left[i]], Inserted(left[i], k), [k]), l, left, right, i + 1, j)
    else
      MergeLoop(Record(r, r.arr[k := right[j]], Inserted(right[j], k), [k]), l, left, right, i, j + 1)
  }

  /** `merge_sort(arr, l, r)`: sort both halves, copy them out, merge them back. */
  function MergeSortRun(r: Run, l: int, hi: int): (r': Run)
    requires 0 <= l <= hi <= |r.arr|
    ensures |r'.arr| == |r.arr|
    decreases hi - l
  {
    if hi - l > 1 then
      var m := (l + hi) / 2;
      MergeHalves(MergeSortRun(MergeSortRun(r, l, m), m, hi), l, m, hi)
    else r
  }

  /** `left, right = arr[l:m], arr[m:r]` and the merge loop over [l, r). */
  function MergeHalves(r: Run, l: int, m: int, hi: int): (r': Run)
    requires 0 <= l <= m <= hi <= |r.arr|
    ensures |r'.arr| == |r.arr|
  {
    MergeLoop(r, l, r.arr[l..m], r.arr[m..hi], 0, 0)
  }

  /** The whole run on input s: `merge_sort(arr)`. */
  function Merging(s: seq<int>): Run {
    MergeSortRun(Start(s), 0, |s|)
  }

  /** The merge of two buffers the engine's way, as a plain sequence. */
  function Merge(left: seq<int>, right: seq<int>): (m: seq<int>)
    ensures |m| == |left| + |right|
    decreases |left| + |right|
  {
    if left == [] then right
    else if right == [] then left
    else if left[0] < right[0] then [left[0]] + Merge(left[1..], right)
    else [right[0]] + Merge(left, right[1..])
  }

  /** The number of steps `merge_sort(arr, l, hi)` takes: one per position
      of every range it merges, at every level of the recursion. */
  function MergeSteps(l: int, hi: int): nat
    decreases hi - l
  {
    if hi - l > 1 then
      var m := (l + hi) / 2;
      MergeSteps(l, m) + MergeSteps(m, hi) + (hi - l)
    else 0
  }

  /** Putting x in front of both sides of a multiset equation keeps it. */
  lemma ConsPermutes(x: int, t: seq<int>, other: seq<int>, mt: seq<int>)
    requires multiset(mt) == multiset(t) + multiset(other)
    ensures multiset([x] + mt) == multiset([x] + t) + multiset(other)
  {
  }

  /** Merging keeps every element of both buffers. */
  lemma {:induction false} MergePermutes(left: seq<int>, right: seq<int>)
    ensures multiset(Merge(left, right)) == multiset(left) + multiset(right)
    decreases |left| + |right|
  {
    if left != [] && right != [] {
      if left[0] < right[0] {
        var t := left[1..];
        MergePermutes(t, right);
        ConsPermutes(left[0], t, right, Merge(t, right));
        assert left == [left[0]] + t;
      } else {
        var t := right[1..];
        MergePermutes(left, t);
        ConsPermutes(right[0], t, left, Merge(left, t));
        assert right == [right[0]] + t;
      }
    }
  }

  /** An ascending sequence stays ascending when a value no larger than its
      first element is put in front. */
  lemma ConsSorted(x: int, mt: seq<int>)
    requires Sorted(mt) && (mt != [] ==> x <= mt[0])
    ensures Sorted([x] + mt)
  {
    var m := [x] + mt;
    forall p, q | 0 <= p < q < |m|
      ensures m[p] <= m[q]
    {
      if p == 0 {
        assert mt[0] <= mt[q - 1];
      }
    }
  }

  /** Merging two ascending buffers gives an ascending sequence, which starts
      with the smaller of their first elements. */
  lemma {:induction false} MergeSorted(left: seq<int>, right: seq<int>)
    requires Sorted(left) && Sorted(right)
    ensures Sorted(Merge(left, right))
    ensures left != [] ==> Merge(left, right)[0] <= left[0]
    ensures right != [] ==> Merge(left, right)[0] <= right[0]
    ensures Merge(left, right) != [] ==> Merge(left, right)[0] in left + right
    decreases |left| + |right|
  {
    if left != [] && right != [] {
      if left[0] < right[0] {
        var t := left[1..];
        MergeSorted(t, right);
        var mt := Merge(t, right);
        assert mt[0] in t + right;
        assert forall y :: y in t + right ==> left[0] <= y by {
          assert forall c :: 0 <= c < |t| ==> left[0] <= t[c] by {
            assert forall c :: 0 <= c < |t| ==> t[c] == left[c + 1];
          }
        }
        ConsSorted(left[0], mt);
      } else {
        var t := right[1..];
        MergeSorted(left, t);
        var mt := Merge(left, t);
        assert mt[0] in left + t;
        assert forall y :: y in left + t ==> right[0] <= y by {
          assert forall c :: 0 <= c < |t| ==> right[0] <= t[c] by {
            assert forall c :: 0 <= c < |t| ==> t[c] == right[c + 1];
          }
        }
        ConsSorted(right[0], mt);
      }
    }
  }

  /** One turn of the merge loop, read off the merge: the loop's choice
      splits off the first element of the rest of the merge. */
  lemma MergeTurn(left: seq<int>, right: seq<int>, i: int, j: int)
    requires 0 <= i <= |left| && 0 <= j <= |right| && i + j < |left| + |right|
    ensures TakeLeft(left, right, i, j) ==>
      i < |left| && Merge(left[i..], right[j..]) == [left[i]] + Merge(left[i + 1..], right[j..])
    ensures !TakeLeft(left, right, i, j) ==>
      j < |right| && Merge(left[i..], right[j..]) == [right[j]] + Merge(left[i..], right[j + 1..])
  {
    if i < |left| {
      assert left[i..][1..] == left[i + 1..];
    }
    if j < |right| {
      assert right[j..][1..] == right[j + 1..];
    }
  }

  /** On equal heads the merge takes from the right buffer: the tie-break of
      the strict comparison. The values are equal, so on integers only the
      order in which buffer positions are used shows it. */
  lemma TieGoesRight(left: seq<int>, right: seq<int>, i: int, j: int)
    requires 0 <= i < |left| && 0 <= j < |right| && left[i] == right[j]
    ensures !TakeLeft(left, right, i, j)
  {
  }

  /** The merge loop from (i, j) writes the rest of the merge into
      [k, l + |left| + |right|) and leaves every other position alone. */
  lemma {:induction false} MergeLoopState(r: Run, l: int, left: seq<int>, right: seq<int>, i: int, j: int)
    requires 0 <= l && 0 <= i <= |left| && 0 <= j <= |right| && l + |left| + |right| <= |r.arr|
    ensures var r', k, hi := MergeLoop(r, l, left, right, i, j), l + i + j, l + |left| + |right|;
      && r'.arr[..k] == r.arr[..k] && r'.arr[hi..] == r.arr[hi..]
      && r'.arr[k..hi] == Merge(left[i..], right[j..])
    decreases |left| + |right| - i - j
  {
    var k, hi := l + i + j, l + |left| + |right|;
    if k < hi {
      MergeTurn(left, right, i, j);
      var take := TakeLeft(left, right, i, j);
      var v := if take then left[i] else right[j];
      var r1 := Record(r, r.arr[k := v], Inserted(v, k), [k]);
      var i1, j1 := if take then i + 1 else i, if take then j else j + 1;
      assert MergeLoop(r, l, left, right, i, j) == MergeLoop(r1, l, left, right, i1, j1);
      MergeLoopState(r1, l, left, right, i1, j1);
      var r' := MergeLoop(r1, l, left, right, i1, j1);
      Glue(r.arr, r'.arr, k, hi, v, Merge(left[i1..], right[j1..]));
    } else {
      assert left[i..] == [] && right[j..] == [];
    }
  }

  /** Writing v at k and then rest over (k, hi) writes [v] + rest over [k, hi). */
  lemma Glue(a: seq<int>, c: seq<int>, k: int, hi: int, v: int, rest: seq<int>)
    requires 0 <= k < hi <= |a| == |c|
    requires c[..k + 1] == a[k := v][..k + 1] && c[hi..] == a[k := v][hi..] && c[k + 1..hi] == rest
    ensures c[..k] == a[..k] && c[hi..] == a[hi..] && c[k..hi] == [v] + rest
  {
    assert c[k] == c[..k + 1][k];
    assert c[..k] == c[..k + 1][..k];
    assert c[k..hi] == [c[k]] + c[k + 1..hi];
  }

  /** The merge loop from (i, j) appends one log entry and one step per
      position it writes. */
  lemma {:induction false} MergeLoopCount(r: Run, l: int, left: seq<int>, right: seq<int>, i: int, j: int)
    requires 0 <= l && 0 <= i <= |left| && 0 <= j <= |right| && l + |left| + |right| <= |r.arr|
    ensures var r', n := MergeLoop(r, l, left, right, i, j), |left| + |right| - i - j;
      && |r'.log| == |r.log| + n && r'.log[..|r.log|] == r.log
      && |r'.trace| == |r.trace| + n && r'.trace[..|r.trace|] == r.trace
    decreases |left| + |right| - i - j
  {
    var k, hi := l + i + j, l + |left| + |right|;
    if k < hi {
      var take := TakeLeft(left, right, i, j);
      var v := if take then left[i] else right[j];
      var r1 := Record(r, r.arr[k := v], Inserted(v, k), [k]);
      var i1, j1 := if take then i + 1 else i, if take then j else j + 1;
      assert MergeLoop(r, l, left, right, i, j) == MergeLoop(r1, l, left, right, i1, j1);
      MergeLoopCount(r1, l, left, right, i1, j1);
      var r' := MergeLoop(r1, l, left, right, i1, j1);
      PrefixChain(r.log, r1.log, r'.log);
      PrefixChain(r.trace, r1.trace, r'.trace);
    }
  }

  /** The entries a merge loop logs when it writes m from position k on:
      `Inserted {m[c]} at position {k + c}`, in order. */
  function Inserts(m: seq<int>, k: int): seq<Entry>
    decreases |m|
  {
    if m == [] then [] else [Inserted(m[0], k)] + Inserts(m[1..], k + 1)
  }

  lemma {:induction false} InsertsAre(m: seq<int>, k: int)
    ensures |Inserts(m, k)| == |m| && forall c :: 0 <= c < |m| ==> Inserts(m, k)[c] == Inserted(m[c], k + c)
    decreases |m|
  {
    if m != [] {
      InsertsAre(m[1..], k + 1);
    }
  }

  /** The merge loop from (i, j) logs the value it writes at each position,
      positions in increasing order. */
  lemma {:induction false} MergeLoopLog(r: Run, l: int, left: seq<int>, right: seq<int>, i: int, j: int)
    requires 0 <= l && 0 <= i <= |left| && 0 <= j <= |right| && l + |left| + |right| <= |r.arr|
    ensures MergeLoop(r, l, left, right, i, j).log == r.log + Inserts(Merge(left[i..], right[j..]), l + i + j)
    decreases |left| + |right| - i - j
  {
    var k, hi := l + i + j, l + |left| + |right|;
    if k < hi {
      MergeTurn(left, right, i, j);
      var take := TakeLeft(left, right, i, j);
      var v := if take then left[i] else right[j];
      var r1 := Record(r, r.arr[k := v], Inserted(v, k), [k]);
      var i1, j1 := if take then i + 1 else i, if take then j else j + 1;
      assert MergeLoop(r, l, left, right, i, j) == MergeLoop(r1, l, left, right, i1, j1);
      MergeLoopLog(r1, l, left, right, i1, j1);
      var mg := Merge(left[i..], right[j..]);
      assert mg[1..] == Merge(left[i1..], right[j1..]);
      assert r1.log + Inserts(mg[1..], k + 1) == r.log + Inserts(mg, k);
    } else {
      assert left[i..] == [] && right[j..] == [];
    }
  }

  /** The q-th step the merge loop from (i, j) yields highlights position
      k + q - t0 alone, for t0 the steps before it. */
  lemma {:induction false} MergeLoopTrace(r: Run, l: int, left: seq<int>, right: seq<int>, i: int, j: int)
    requires 0 <= l && 0 <= i <= |left| && 0 <= j <= |right| && l + |left| + |right| <= |r.arr|
    ensures var r', k, t0 := MergeLoop(r, l, left, right, i, j), l + i + j, |r.trace|;
      && |r'.trace| == t0 + l + |left| + |right| - k && r'.trace[..t0] == r.trace
      && forall q :: t0 <= q < |r'.trace| ==> r'.trace[q].hl == [k + q - t0]
    decreases |left| + |right| - i - j
  {
    var k, hi := l + i + j, l + |left| + |right|;
    if k < hi {
      var take := TakeLeft(left, right, i, j);
      var v := if take then left[i] else right[j];
      var r1 := Record(r, r.arr[k := v], Inserted(v, k), [k]);
      var i1, j1 := if take then i + 1 else i, if take then j else j + 1;
      assert MergeLoop(r, l, left, right, i, j) == MergeLoop(r1, l, left, right, i1, j1);
      MergeLoopTrace(r1, l, left, right, i1, j1);
      var r', t0 := MergeLoop(r1, l, left, right, i1, j1), |r.trace|;
      assert r'.trace[t0] == r'.trace[..t0 + 1][t0];
      assert r'.trace[..t0] == r'.trace[..t0 + 1][..t0];
    }
  }

  lemma {:induction false} MergeLoopTidy(s: seq<int>, r: Run, l: int, left: seq<int>, right: seq<int>, i: int, j: int)
    requires 0 <= l && 0 <= i <= |left| && 0 <= j <= |right| && l + |left| + |right| <= |r.arr|
    requires Tidy(s, r)
    ensures Tidy(s, MergeLoop(r, l, left, right, i, j))
    decreases |left| + |right| - i - j
  {
    var k := l + i + j;
    if i + j < |left| + |right| {
      var take := TakeLeft(left, right, i, j);
      var v := if take then left[i] else right[j];
      RecordKeepsShape(s, r, r.arr[k := v], Inserted(v, k), [k]);
      var r1 := Record(r, r.arr[k := v], Inserted(v, k), [k]);
      var i1, j1 := if take then i + 1 else i, if take then j else j + 1;
      assert MergeLoop(r, l, left, right, i, j) == MergeLoop(r1, l, left, right, i1, j1);
      MergeLoopTidy(s, r1, l, left, right, i1, j1);
    }
  }

  lemma {:induction false} MergeSortTidy(s: seq<int>, r: Run, l: int, hi: int)
    requires 0 <= l <= hi <= |r.arr| && Tidy(s, r)
    ensures Tidy(s, MergeSortRun(r, l, hi))
    decreases hi - l
  {
    if hi - l > 1 {
      var m := (l + hi) / 2;
      MergeSortTidy(s, r, l, m);
      var r1 := MergeSortRun(r, l, m);
      MergeSortTidy(s, r1, m, hi);
      var r2 := MergeSortRun(r1, m, hi);
      MergeLoopTidy(s, r2, l, r2.arr[l..m], r2.arr[m..hi], 0, 0);
      assert MergeSortRun(r, l, hi) == MergeLoop(r2, l, r2.arr[l..m], r2.arr[m..hi], 0, 0);
    }
  }

  /** Agreeing on a prefix or a suffix means agreeing on a shorter one. */
  lemma Narrow(a: seq<int>, b: seq<int>, x: int, y: int)
    requires 0 <= x <= y <= |a| == |b|
    ensures a[..y] == b[..y] ==> a[..x] == b[..x]
    ensures a[x..] == b[x..] ==> a[y..] == b[y..]
  {
    if a[..y] == b[..y] {
      assert a[..x] == a[..y][..x] && b[..x] == b[..y][..x];
    }
    if a[x..] == b[x..] {
      assert a[y..] == a[x..][y - x..] && b[y..] == b[x..][y - x..];
    }
  }

  /** Writing the merge of a[l..m] and a[m..hi] over a[l..hi] keeps a's elements. */
  lemma MergeBackPermutes(a: seq<int>, b: seq<int>, l: int, m: int, hi: int)
    requires 0 <= l <= m <= hi <= |a| == |b|
    requires b[..l] == a[..l] && b[hi..] == a[hi..] && b[l..hi] == Merge(a[l..m], a[m..hi])
    ensures multiset(b) == multiset(a)
  {
    MergePermutes(a[l..m], a[m..hi]);
    MultisetSplit(a, l, hi);
    MultisetSplit(b, l, hi);
    assert a[l..hi] == a[l..m] + a[m..hi];
  }

  /** A prefix of a prefix is a prefix. */
  lemma PrefixChain<T>(a: seq<T>, b: seq<T>, c: seq<T>)
    requires |a| <= |b| <= |c| && b[..|a|] == a && c[..|b|] == b
    ensures c[..|a|] == a
  {
    assert c[..|a|] == c[..|b|][..|a|];
  }

  /** Merging the halves [l, m) and [m, hi) back: the range then holds the
      merge of the two buffers, nothing outside it changes, the array keeps
      its elements, and there is one step and one log entry per position. */
  lemma MergeHalvesState(r: Run, l: int, m: int, hi: int)
    requires 0 <= l <= m <= hi <= |r.arr|
    ensures var r' := MergeHalves(r, l, m, hi);
      && r'.arr[..l] == r.arr[..l] && r'.arr[hi..] == r.arr[hi..]
      && r'.arr[l..hi] == Merge(r.arr[l..m], r.arr[m..hi])
      && multiset(r'.arr) == multiset(r.arr)
      && |r'.log| == |r.log| + (hi - l) && r'.log[..|r.log|] == r.log
      && |r'.trace| == |r.trace| + (hi - l) && r'.trace[..|r.trace|] == r.trace
  {
    var left, right := r.arr[l..m], r.arr[m..hi];
    MergeLoopState(r, l, left, right, 0, 0);
    MergeLoopCount(r, l, left, right, 0, 0);
    assert left[0..] == left && right[0..] == right;
    MergeBackPermutes(r.arr, MergeHalves(r, l, m, hi).arr, l, m, hi);
  }

  /** The steps of merging [l, hi) back: one per position k from l up to
      hi - 1, in order, each highlighting [k] alone. */
  lemma MergeHalvesTrace(r: Run, l: int, m: int, hi: int)
    requires 0 <= l <= m <= hi <= |r.arr|
    ensures var r', t0 := MergeHalves(r, l, m, hi), |r.trace|;
      && |r'.trace| == t0 + (hi - l)
      && forall q :: t0 <= q < |r'.trace| ==> r'.trace[q].hl == [l + q - t0]
  {
    var left, right := r.arr[l..m], r.arr[m..hi];
    MergeLoopTrace(r, l, left, right, 0, 0);
    assert MergeHalves(r, l, m, hi) == MergeLoop(r, l, left, right, 0, 0);
  }

  /** A log extended by the inserts of mg, where mg sits at a[l..hi]: one
      entry per position k, naming the value at k. */
  lemma InsertsLogged(a: seq<int>, log0: seq<Entry>, log: seq<Entry>, l: int, hi: int, mg: seq<int>)
    requires 0 <= l <= hi <= |a| && a[l..hi] == mg && log == log0 + Inserts(mg, l)
    ensures |log| == |log0| + (hi - l)
    ensures forall k :: l <= k < hi ==> log[|log0| + k - l] == Inserted(a[k], k)
  {
    InsertsAre(mg, l);
    forall k | l <= k < hi
      ensures log[|log0| + k - l] == Inserted(a[k], k)
    {
      assert a[k] == mg[k - l];
    }
  }

  /** Merging [l, hi) back logs, for each position k in order, the value
      that ends up at k. */
  lemma MergeHalvesLog(r: Run, l: int, m: int, hi: int)
    requires 0 <= l <= m <= hi <= |r.arr|
    ensures var r', l0 := MergeHalves(r, l, m, hi), |r.log|;
      && |r'.log| == l0 + (hi - l)
      && forall k :: l <= k < hi ==> r'.log[l0 + k - l] == Inserted(r'.arr[k], k)
  {
    MergeHalvesWrites(r, l, m, hi);
    var r' := MergeHalves(r, l, m, hi);
    InsertsLogged(r'.arr, r.log, r'.log, l, hi, Merge(r.arr[l..m], r.arr[m..hi]));
  }

  /** Merging [l, hi) back writes the merge there and logs its inserts. */
  lemma MergeHalvesWrites(r: Run, l: int, m: int, hi: int)
    requires 0 <= l <= m <= hi <= |r.arr|
    ensures var r', mg := MergeHalves(r, l, m, hi), Merge(r.arr[l..m], r.arr[m..hi]);
      r'.arr[l..hi] == mg && r'.log == r.log + Inserts(mg, l)
  {
    var left, right := r.arr[l..m], r.arr[m..hi];
    assert left[0..] == left && right[0..] == right;
    MergeLoopState(r, l, left, right, 0, 0);
    MergeLoopLog(r, l, left, right, 0, 0);
  }

  /** Sorting [l, hi) touches nothing outside it and keeps the whole array's elements. */
  lemma {:induction false} MergeSortFrame(r: Run, l: int, hi: int)
    requires 0 <= l <= hi <= |r.arr|
    ensures var r' := MergeSortRun(r, l, hi);
      && r'.arr[..l] == r.arr[..l] && r'.arr[hi..] == r.arr[hi..]
      && multiset(r'.arr) == multiset(r.arr)
    decreases hi - l
  {
    if hi - l > 1 {
      var m := (l + hi) / 2;
      MergeSortFrame(r, l, m);
      var r1 := MergeSortRun(r, l, m);
      MergeSortFrame(r1, m, hi);
      var r2 := MergeSortRun(r1, m, hi);
      MergeHalvesState(r2, l, m, hi);
      Narrow(r2.arr, r1.arr, l, m);
      Narrow(r1.arr, r.arr, m, hi);
    }
  }

  /** Sorting [l, hi) takes MergeSteps(l, hi) steps, one log entry each,
      and keeps the earlier ones. */
  lemma {:induction false} MergeSortCount(r: Run, l: int, hi: int)
    requires 0 <= l <= hi <= |r.arr|
    ensures var r' := MergeSortRun(r, l, hi);
      && |r'.log| == |r.log| + MergeSteps(l, hi) && r'.log[..|r.log|] == r.log
      && |r'.trace| == |r.trace| + MergeSteps(l, hi) && r'.trace[..|r.trace|] == r.trace
    decreases hi - l
  {
    if hi - l > 1 {
      var m := (l + hi) / 2;
      MergeSortCount(r, l, m);
      var r1 := MergeSortRun(r, l, m);
      MergeSortCount(r1, m, hi);
      var r2 := MergeSortRun(r1, m, hi);
      MergeHalvesState(r2, l, m, hi);
      var r' := MergeHalves(r2, l, m, hi);
      PrefixChain(r.log, r1.log, r2.log);
      PrefixChain(r.log, r2.log, r'.log);
      PrefixChain(r.trace, r1.trace, r2.trace);
      PrefixChain(r.trace, r2.trace, r'.trace);
    }
  }

  /** Sorting [l, hi) leaves it ascending. */
  lemma {:induction false} MergeSortSorts(r: Run, l: int, hi: int)
    requires 0 <= l <= hi <= |r.arr|
    ensures Sorted(MergeSortRun(r, l, hi).arr[l..hi])
    decreases hi - l
  {
    if hi - l > 1 {
      var m := (l + hi) / 2;
      MergeSortSorts(r, l, m);
      var r1 := MergeSortRun(r, l, m);
      MergeSortSorts(r1, m, hi);
      MergeSortFrame(r1, m, hi);
      var r2 := MergeSortRun(r1, m, hi);
      assert r2.arr[l..m] == r1.arr[l..m] by {
        assert r2.arr[l..m] == r2.arr[..m][l..] && r1.arr[l..m] == r1.arr[..m][l..];
      }
      MergeSorted(r2.arr[l..m], r2.arr[m..hi]);
      MergeHalvesState(r2, l, m, hi);
    }
  }

  /** Sorting [l, hi) permutes its contents. */
  lemma MergeSortPermutes(r: Run, l: int, hi: int)
    requires 0 <= l <= hi <= |r.arr|
    ensures multiset(MergeSortRun(r, l, hi).arr[l..hi]) == multiset(r.arr[l..hi])
  {
    MergeSortFrame(r, l, hi);
    var r' := MergeSortRun(r, l, hi);
    SegmentPermutation(r'.arr, r.arr, l, hi);
  }

  /** The merge engine sorts and permutes, takes MergeSteps(n) steps (none for
      n <= 1), logs one entry per step, and keeps snapshots well shaped. */
  lemma MergingCorrect(s: seq<int>)
    ensures var r := Merging(s);
      && Sorted(r.arr) && multiset(r.arr) == multiset(s)
      && |r.trace| == MergeSteps(0, |s|) && Tidy(s, r)
  {
    MergeSortFrame(Start(s), 0, |s|);
    MergeSortCount(Start(s), 0, |s|);
    MergeSortSorts(Start(s), 0, |s|);
    MergeSortTidy(s, Start(s), 0, |s|);
    var r := Merging(s);
    assert r.arr[0..|s|] == r.arr;
  }

  /** The merge back on the working array: copy out both halves, then
      `for k in range(l, r)`. */
  method MergeBack(a: array<int>, l: int, m: int, hi: int, log0: seq<Entry>, trace0: seq<Step>)
    returns (log: seq<Entry>, trace: seq<Step>)
    requires 0 <= l <= m <= hi <= a.Length
    modifies a
    ensures Run(a[..], log, trace) == MergeHalves(Run(old(a[..]), log0, trace0), l, m, hi)
  {
    var left, right := a[l..m], a[m..hi];
    log, trace := log0, trace0;
    var i, j := 0, 0;
    for k := l to hi
      invariant 0 <= i <= |left| && 0 <= j <= |right| && k == l + i + j
      invariant MergeLoop(Run(a[..], log, trace), l, left, right, i, j)
             == MergeHalves(Run(old(a[..]), log0, trace0), l, m, hi)
    {
      if j >= |right| || (i < |left| && left[i] < right[j]) {
        a[k] := left[i];
        i := i + 1;
      } else {
        a[k] := right[j];
        j := j + 1;
      }
      log := log + [Inserted(a[k], k)];
      trace := trace + [Step(a[..], [k], log)];
    }
  }

  /** `merge_sort(arr, l, r, steps)` on the working array, threading the
      log and the steps yielded so far. */
  method SortRange(a: array<int>, l: int, hi: int, log0: seq<Entry>, trace0: seq<Step>)
    returns (log: seq<Entry>, trace: seq<Step>)
    requires 0 <= l <= hi <= a.Length
    modifies a
    ensures Run(a[..], log, trace) == MergeSortRun(Run(old(a[..]), log0, trace0), l, hi)
    decreases hi - l
  {
    log, trace := log0, trace0;
    if hi - l > 1 {
      var m := (l + hi) / 2;
      log, trace := SortRange(a, l, m, log, trace);
      log, trace := SortRange(a, m, hi, log, trace);
      log, trace := MergeBack(a, l, m, hi, log, trace);
    }
  }

  /** The engine on the working array: `merge_sort(arr)` drained to the end. */
  method Sort(a: array<int>) returns (trace: seq<Step>)
    modifies a
    ensures a[..] == Merging(old(a[..])).arr && trace == Merging(old(a[..])).trace
    ensures Sorted(a[..]) && multiset(a[..]) == multiset(old(a[..])) && |trace| == MergeSteps(0, a.Length)
  {
    ghost var s := a[..];
    var log;
    log, trace := SortRange(a, 0, a.Length, [], []);
    MergingCorrect(s);
  }
}
