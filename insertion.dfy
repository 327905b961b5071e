// Insertion sort engine (app.py:76-87): one step per shift, plus one
// placement step per outer index that logs nothing.

module InsertionSort {
  import opened Steps
  import opened Counting

  /** The inner loop `while j >= 0 and key < arr[j]` from j on, then the
      placement `arr[j + 1] = key` and its step. */
  function Shift(r: Run, i: int, key: int, j: int): (r': Run)
    requires -1 <= j < i < |r.arr|
    ensures |r'.arr| == |r.arr|
    decreases j + 1
  {
    if j >= 0 && key < r.arr[j] then
      Shift(Record(r, r.arr[j + 1 := r.arr[j]], Moved(r.arr[j], key), [j, i]), i, key, j - 1)
    else
      Yield(r.(arr := r.arr[j + 1 := key]), [j + 1, i])
  }

  /** The outer loop `for i in range(i, n)`. */
  function Outer(r: Run, i: int): (r': Run)
    requires 1 <= i
    ensures |r'.arr| == |r.arr|
    decreases |r.arr| - i
  {
    if i >= |r.arr| then r else Outer(Shift(r, i, r.arr[i], i - 1), i + 1)
  }

  /** One outer iteration, with the key and the scan start named. */
  lemma OuterStep(r: Run, i: int, key: int, j: int)
    requires 1 <= i < |r.arr| && key == r.arr[i] && j == i - 1
    ensures Outer(r, i) == Outer(Shift(r, i, key, j), i + 1)
  {
  }

  /** One comparison of the inner loop: shift and go on, or drop the key. */
  lemma ShiftStep(r: Run, i: int, key: int, j: int)
    requires -1 <= j < i < |r.arr|
    ensures j >= 0 && key < r.arr[j] ==>
      Shift(r, i, key, j) == Shift(Record(r, r.arr[j + 1 := r.arr[j]], Moved(r.arr[j], key), [j, i]), i, key, j - 1)
    ensures !(j >= 0 && key < r.arr[j]) ==> Shift(r, i, key, j) == Yield(r.(arr := r.arr[j + 1 := key]), [j + 1, i])
  {
  }

  /** The whole run on input s. */
  function Insertion(s: seq<int>): Run {
    Outer(Start(s), 1)
  }

  /** Where the scan leftwards from j stops for key: one past the first
      element that is not greater than key. */
  function InsertPos(u: seq<int>, key: int, j: int): (p: int)
    requires -1 <= j < |u|
    ensures 0 <= p <= j + 1
    ensures forall q :: p <= q <= j ==> key < u[q]
    ensures p == 0 || u[p - 1] <= key
    decreases j + 1
  {
    if j >= 0 && key < u[j] then InsertPos(u, key, j - 1) else j + 1
  }

  /** u with u[i] moved to position p and u[p..i] moved one place right. */
  function Insert(u: seq<int>, i: int, p: int): seq<int>
    requires 0 <= p <= i < |u|
  {
    u[..p] + [u[i]] + u[p..i] + u[i + 1..]
  }

  /** The array in the middle of iteration i, before comparing at j: u[..j + 1],
      then the hole (still holding a copy of u[j + 1]), then u[j + 1..i] moved one
      place right. The key u[i] is not in arr[..i + 1] unless it was a duplicate. */
  function Shifted(u: seq<int>, i: int, j: int): seq<int>
    requires -1 <= j < i < |u|
  {
    u[..j + 2] + u[j + 1..i] + u[i + 1..]
  }

  /** One shift step: it turns Shifted(u, i, j) into Shifted(u, i, j - 1). */
  lemma ShiftOnce(u: seq<int>, i: int, j: int)
    requires 0 <= j < i < |u|
    ensures var a := Shifted(u, i, j);
      |a| == |u| && a[j] == u[j] && a[j + 1 := a[j]] == Shifted(u, i, j - 1)
  {
    var a := Shifted(u, i, j);
    var b := Shifted(u, i, j - 1);
    assert |a| == |b|;
    forall q | 0 <= q < |a|
      ensures a[j + 1 := a[j]][q] == b[q]
    {
      if q < j + 2 {
        assert a[q] == u[..j + 2][q];
      } else if q < i + 1 {
        assert a[q] == u[j + 1..i][q - j - 2];
      } else {
        assert a[q] == u[i + 1..][q - i - 1];
      }
      if q < j + 1 {
        assert b[q] == u[..j + 1][q];
      } else if q < i + 1 {
        assert b[q] == u[j..i][q - j - 1];
      } else {
        assert b[q] == u[i + 1..][q - i - 1];
      }
    }
  }

  /** The placement step turns Shifted(u, i, j) into Insert(u, i, j + 1). */
  lemma PlaceOnce(u: seq<int>, i: int, j: int)
    requires -1 <= j < i < |u|
    ensures var a := Shifted(u, i, j);
      |a| == |u| && (j >= 0 ==> a[j] == u[j]) && a[j + 1 := u[i]] == Insert(u, i, j + 1)
  {
    var a := Shifted(u, i, j);
    var b := Insert(u, i, j + 1);
    assert |a| == |b|;
    forall q | 0 <= q < |a|
      ensures a[j + 1 := u[i]][q] == b[q]
    {
      if q < j + 2 {
        assert a[q] == u[..j + 2][q];
      } else if q < i + 1 {
        assert a[q] == u[j + 1..i][q - j - 2];
      } else {
        assert a[q] == u[i + 1..][q - i - 1];
      }
      if q < j + 1 {
        assert b[q] == u[..j + 1][q];
      } else if q == j + 1 {
        assert b[q] == u[i];
      } else if q < i + 1 {
        assert b[q] == u[j + 1..i][q - j - 2];
      } else {
        assert b[q] == u[i + 1..][q - i - 1];
      }
    }
  }

  /** The array and the counts after iteration i, from the state before comparing at j:
      the key lands at InsertPos, each element passed over costs one step and
      one log entry, and the placement costs one more step. */
  lemma {:induction false} ShiftState(r: Run, u: seq<int>, i: int, j: int)
    requires -1 <= j < i < |u| && r.arr == Shifted(u, i, j)
    ensures var p, r' := InsertPos(u, u[i], j), Shift(r, i, u[i], j);
      && r'.arr == Insert(u, i, p)
      && |r'.log| == |r.log| + (j + 1 - p) && r'.log[..|r.log|] == r.log
      && |r'.trace| == |r.trace| + (j + 1 - p) + 1 && r'.trace[..|r.trace|] == r.trace
    decreases j + 1
  {
    var key := u[i];
    if j >= 0 && key < r.arr[j] {
      ShiftOnce(u, i, j);
      var r1 := Record(r, r.arr[j + 1 := r.arr[j]], Moved(r.arr[j], key), [j, i]);
      ShiftState(r1, u, i, j - 1);
      var r' := Shift(r1, i, key, j - 1);
      assert r'.log[..|r.log|] == r'.log[..|r1.log|][..|r.log|];
      assert r'.trace[..|r.trace|] == r'.trace[..|r1.trace|][..|r.trace|];
    } else {
      PlaceOnce(u, i, j);
    }
  }

  /** The entries the scan from j logs for the key u[i]: one per element it
      passes over, naming that element and the key, nearest first. */
  function Moves(u: seq<int>, i: int, j: int): seq<Entry>
    requires -1 <= j < i < |u|
    decreases j + 1
  {
    if j >= 0 && u[i] < u[j] then [Moved(u[j], u[i])] + Moves(u, i, j - 1) else []
  }

  /** There is one entry per element passed over, the c-th naming u[j - c]. */
  lemma {:induction false} MovesAre(u: seq<int>, i: int, j: int)
    requires -1 <= j < i < |u|
    ensures var d := j + 1 - InsertPos(u, u[i], j);
      |Moves(u, i, j)| == d && forall c :: 0 <= c < d ==> Moves(u, i, j)[c] == Moved(u[j - c], u[i])
    decreases j + 1
  {
    if j >= 0 && u[i] < u[j] {
      MovesAre(u, i, j - 1);
    }
  }

  /** Iteration i, from the state before comparing at j, logs exactly Moves(u, i, j). */
  lemma {:induction false} ShiftLog(r: Run, u: seq<int>, i: int, j: int)
    requires -1 <= j < i < |u| && r.arr == Shifted(u, i, j)
    ensures Shift(r, i, u[i], j).log == r.log + Moves(u, i, j)
    decreases j + 1
  {
    var key := u[i];
    if j >= 0 && key < r.arr[j] {
      ShiftOnce(u, i, j);
      var r1 := Record(r, r.arr[j + 1 := r.arr[j]], Moved(r.arr[j], key), [j, i]);
      ShiftLog(r1, u, i, j - 1);
      assert r1.log + Moves(u, i, j - 1) == r.log + Moves(u, i, j);
    } else {
      PlaceOnce(u, i, j);
    }
  }

  /* The shift steps iteration i yields, from the state before comparing at
     j, are described by the trace index k they sit at, with e = j + |trace|
     and g = |log| - |trace|, which stay fixed along the scan. Snapshots,
     highlights and logs are proved by three separate inductions, each
     carrying the counts of ShiftState again as part of its own induction
     hypothesis, so that every one of them stays a small proof. */

  /** The shift step at trace index k shows the array with the hole at e - k - 1,
      holding a copy of its right neighbour. */
  lemma {:induction false} ShiftSnapshots(r: Run, u: seq<int>, i: int, j: int, e: int, g: int)
    requires -1 <= j < i < |u| && r.arr == Shifted(u, i, j)
    requires e == j + |r.trace| && g == |r.log| - |r.trace|
    ensures var r', d := Shift(r, i, u[i], j), j + 1 - InsertPos(u, u[i], j);
      |r'.log| == |r.log| + d && |r'.trace| == |r.trace| + d + 1
    ensures var r' := Shift(r, i, u[i], j);
      forall k :: |r.trace| <= k < e + 1 - InsertPos(u, u[i], j) ==> r'.trace[k].snapshot == Shifted(u, i, e - k - 1)
    decreases j + 1
  {
    var key := u[i];
    ShiftState(r, u, i, j);
    if j >= 0 && key < r.arr[j] {
      ShiftOnce(u, i, j);
      var r1 := Record(r, r.arr[j + 1 := r.arr[j]], Moved(r.arr[j], key), [j, i]);
      ShiftState(r1, u, i, j - 1);
      ShiftSnapshots(r1, u, i, j - 1, e, g);
      var r', t0 := Shift(r1, i, key, j - 1), |r.trace|;
      assert Shift(r, i, key, j) == r';
      assert r'.trace[..t0 + 1] == r1.trace;
      assert r'.trace[t0] == r1.trace[t0];
    }
  }

  /** The shift step at trace index k highlights [e - k, i]. */
  lemma {:induction false} ShiftHighlights(r: Run, u: seq<int>, i: int, j: int, e: int, g: int)
    requires -1 <= j < i < |u| && r.arr == Shifted(u, i, j)
    requires e == j + |r.trace| && g == |r.log| - |r.trace|
    ensures var r', d := Shift(r, i, u[i], j), j + 1 - InsertPos(u, u[i], j);
      |r'.log| == |r.log| + d && |r'.trace| == |r.trace| + d + 1
    ensures var r' := Shift(r, i, u[i], j);
      forall k :: |r.trace| <= k < e + 1 - InsertPos(u, u[i], j) ==> r'.trace[k].hl == [e - k, i]
    decreases j + 1
  {
    var key := u[i];
    ShiftState(r, u, i, j);
    if j >= 0 && key < r.arr[j] {
      ShiftOnce(u, i, j);
      var r1 := Record(r, r.arr[j + 1 := r.arr[j]], Moved(r.arr[j], key), [j, i]);
      ShiftState(r1, u, i, j - 1);
      ShiftHighlights(r1, u, i, j - 1, e, g);
      var r', t0 := Shift(r1, i, key, j - 1), |r.trace|;
      assert Shift(r, i, key, j) == r';
      assert r'.trace[..t0 + 1] == r1.trace;
      assert r'.trace[t0] == r1.trace[t0];
    }
  }

  /** The shift step at trace index k carries the log up to index k + g. */
  lemma {:induction false} ShiftLogs(r: Run, u: seq<int>, i: int, j: int, e: int, g: int)
    requires -1 <= j < i < |u| && r.arr == Shifted(u, i, j)
    requires e == j + |r.trace| && g == |r.log| - |r.trace|
    ensures var r', d := Shift(r, i, u[i], j), j + 1 - InsertPos(u, u[i], j);
      |r'.log| == |r.log| + d && |r'.trace| == |r.trace| + d + 1
    ensures var r' := Shift(r, i, u[i], j);
      forall k :: |r.trace| <= k < e + 1 - InsertPos(u, u[i], j) ==> r'.trace[k].log == r'.log[..k + g + 1]
    decreases j + 1
  {
    var key := u[i];
    ShiftState(r, u, i, j);
    if j >= 0 && key < r.arr[j] {
      ShiftOnce(u, i, j);
      var r1 := Record(r, r.arr[j + 1 := r.arr[j]], Moved(r.arr[j], key), [j, i]);
      ShiftState(r1, u, i, j - 1);
      ShiftLogs(r1, u, i, j - 1, e, g);
      var r', t0 := Shift(r1, i, key, j - 1), |r.trace|;
      assert Shift(r, i, key, j) == r';
      var l0 := |r.log|;
      assert r'.log[..l0 + 1] == r1.log;
      assert r'.trace[..t0 + 1] == r1.trace;
      assert r'.trace[t0] == r1.trace[t0];
    }
  }

  /** The last step of iteration i shows the array as it is afterwards,
      highlights [p, i] for the insertion point p and logs nothing new. */
  lemma {:induction false} ShiftPlaced(r: Run, i: int, key: int, j: int)
    requires -1 <= j < i < |r.arr|
    ensures var r' := Shift(r, i, key, j);
      && r'.trace != []
      && r'.trace[|r'.trace| - 1] == Step(r'.arr, [InsertPos(r.arr, key, j), i], r'.log)
    decreases j + 1
  {
    if j >= 0 && key < r.arr[j] {
      var r1 := Record(r, r.arr[j + 1 := r.arr[j]], Moved(r.arr[j], key), [j, i]);
      ShiftPlaced(r1, i, key, j - 1);
      InsertPosFrom(r.arr, r1.arr, key, j - 1);
    }
  }

  /** The scan depends only on the positions it reads. */
  lemma {:induction false} InsertPosFrom(u: seq<int>, v: seq<int>, key: int, j: int)
    requires -1 <= j < |u| == |v| && u[..j + 1] == v[..j + 1]
    ensures InsertPos(u, key, j) == InsertPos(v, key, j)
    decreases j + 1
  {
    if j >= 0 {
      assert u[j] == u[..j + 1][j] && v[j] == v[..j + 1][j];
      assert u[..j] == u[..j + 1][..j] && v[..j] == v[..j + 1][..j];
      InsertPosFrom(u, v, key, j - 1);
    }
  }

  /** Inserting the key next to the first element not greater than it keeps
      the prefix sorted. */
  lemma InsertSorted(u: seq<int>, i: int, p: int)
    requires 0 <= p <= i < |u| && Sorted(u[..i])
    requires forall q :: p <= q < i ==> u[i] < u[q]
    requires p == 0 || u[p - 1] <= u[i]
    ensures Sorted(Insert(u, i, p)[..i + 1])
  {
    var b := Insert(u, i, p)[..i + 1];
    assert b == u[..p] + [u[i]] + u[p..i];
    forall x, y | 0 <= x < y < i + 1
      ensures b[x] <= b[y]
    {
      if y < p {
        assert u[..i][x] <= u[..i][y];
      } else if y == p {
        if x < p - 1 {
          assert u[..i][x] <= u[..i][p - 1];
        }
      } else if x < p {
        assert u[..i][x] <= u[..i][y - 1];
      } else if x > p {
        assert u[..i][x - 1] <= u[..i][y - 1];
      }
    }
  }

  lemma InsertPermutes(u: seq<int>, i: int, p: int)
    requires 0 <= p <= i < |u|
    ensures multiset(Insert(u, i, p)) == multiset(u) && Insert(u, i, p)[i + 1..] == u[i + 1..]
  {
    assert u == u[..p] + u[p..i] + [u[i]] + u[i + 1..];
  }

  lemma InsertPermutesPrefix(u: seq<int>, i: int, p: int)
    requires 0 <= p <= i < |u|
    ensures multiset(Insert(u, i, p)[..i + 1]) == multiset(u[..i + 1])
  {
    assert u[..i + 1] == u[..p] + u[p..i] + [u[i]];
    assert Insert(u, i, p)[..i + 1] == u[..p] + [u[i]] + u[p..i];
  }

  /** Mid-shift, after moving u[j] right: the array holds u[j] twice, at j and
      j + 1, and has lost the key (one copy of it, when the key is a duplicate). */
  lemma ShiftedDuplicate(u: seq<int>, i: int, j: int, a: seq<int>)
    requires 0 <= j < i < |u| && a == Shifted(u, i, j - 1)
    ensures |a| == |u| && a[j] == u[j] && a[j + 1] == u[j]
    ensures multiset(a) == multiset(u) - multiset{u[i]} + multiset{u[j]}
  {
    assert a == u[..j + 1] + ([u[j]] + u[j + 1..i]) + u[i + 1..];
    assert u == u[..j + 1] + u[j + 1..i] + [u[i]] + u[i + 1..];
  }

  /** The shift step at trace index k, the one that moved u[j'] right for
      j' = e - k, shows u[j'] at both j' and j' + 1 and has lost the key:
      its multiset is the original's minus the key plus u[j']. */
  lemma ShiftStepDuplicates(r: Run, u: seq<int>, i: int, j: int, e: int, g: int, k: int)
    requires -1 <= j < i < |u| && r.arr == Shifted(u, i, j)
    requires e == j + |r.trace| && g == |r.log| - |r.trace|
    requires |r.trace| <= k < e + 1 - InsertPos(u, u[i], j)
    ensures var r' := Shift(r, i, u[i], j); k < |r'.trace| && |r'.trace[k].snapshot| == |u|
    ensures var snap, j' := Shift(r, i, u[i], j).trace[k].snapshot, e - k;
      && 0 <= j' < i && snap[j'] == u[j'] && snap[j' + 1] == u[j']
      && multiset(snap) == multiset(u) - multiset{u[i]} + multiset{u[j']}
  {
    ShiftSnapshots(r, u, i, j, e, g);
    ShiftedDuplicate(u, i, e - k, Shift(r, i, u[i], j).trace[k].snapshot);
  }

  /** Every step's log is a prefix of the run's log, and from one step to the
      next the log grows by at most one entry. */
  ghost predicate LogGrows(r: Run) {
    (forall k :: 0 <= k < |r.trace| ==> r.trace[k].log <= r.log) &&
    (forall k :: 0 < k < |r.trace| ==> GrowsAt(r.trace, k))
  }

  ghost predicate GrowsAt(t: seq<Step>, k: int)
    requires 0 < k < |t|
  {
    |t[k - 1].log| <= |t[k].log| <= |t[k - 1].log| + 1
  }

  /** The array and the counts before outer iteration i: a sorted prefix,
      the rest of the input untouched, a permutation, and one log entry per
      inversion closed so far, one step more per earlier index. */
  ghost predicate Progress(s: seq<int>, r: Run, i: int) {
    1 <= i <= |s| && |r.arr| == |s| &&
    Sorted(r.arr[..i]) && r.arr[i..] == s[i..] && multiset(r.arr) == multiset(s) &&
    |r.log| == Inversions(s[..i]) && |r.trace| == i - 1 + Inversions(s[..i])
  }

  /** What holds of the run before outer iteration i. */
  ghost predicate Valid(s: seq<int>, r: Run, i: int) {
    Progress(s, r, i) && LogTidy(r) && Current(s, r)
  }

  /** In a sorted prefix, the elements the key passes over are exactly
      those greater than it. */
  lemma PassedOver(u: seq<int>, i: int, p: int)
    requires 0 <= p <= i < |u| && Sorted(u[..i])
    requires forall q :: p <= q < i ==> u[i] < u[q]
    requires p == 0 || u[p - 1] <= u[i]
    ensures Greater(u[..i], u[i]) == i - p
  {
    var key, a, b := u[i], u[..p], u[p..i];
    assert u[..i] == a + b;
    GreaterConcat(a, b, key);
    forall q | 0 <= q < p
      ensures a[q] <= key
    {
      if q < p - 1 {
        assert u[..i][q] <= u[..i][p - 1];
      }
    }
    GreaterNone(a, key);
    forall q | 0 <= q < i - p
      ensures b[q] > key
    {
      assert b[q] == u[p + q];
    }
    GreaterAll(b, key);
  }

  /** The number of elements the key passes over is the number of inversions
      it closes. */
  lemma ShiftCount(s: seq<int>, u: seq<int>, i: int)
    requires 0 <= i < |u| == |s|
    requires multiset(u) == multiset(s) && u[i..] == s[i..]
    ensures Inversions(s[..i + 1]) == Inversions(s[..i]) + Greater(u[..i], u[i])
  {
    assert u[..0] == s[..0];
    SegmentPermutation(u, s, 0, i);
    assert u[0..i] == u[..i] && s[0..i] == s[..i];
    GreaterPermutation(u[..i], s[..i], u[i]);
    assert s[..i + 1][..i] == s[..i];
    assert u[i] == s[i..][0];
  }

  /** Snapshots well shaped, logs growing, and the last step carrying the whole log. */
  ghost predicate LogTidy(r: Run) {
    Shaped(r) && LogGrows(r) && (r.trace != [] ==> r.trace[|r.trace| - 1].log == r.log)
  }

  /** A yield after logging at most one entry keeps the run tidy. */
  lemma YieldKeepsTidy(r: Run, r1: Run, hl: seq<int>)
    requires LogTidy(r) && |r1.arr| == |r.arr| && r1.trace == r.trace && InBounds(hl, |r.arr|)
    requires r.log <= r1.log && |r1.log| <= |r.log| + 1
    ensures LogTidy(Yield(r1, hl))
  {
    var r' := Yield(r1, hl);
    forall k | 0 <= k < |r'.trace|
      ensures r'.trace[k].log <= r'.log
    {
      if k < |r.trace| {
        assert r.trace[k].log <= r.log;
      }
    }
    forall k | 0 < k < |r'.trace|
      ensures GrowsAt(r'.trace, k)
    {
      if k < |r.trace| {
        assert GrowsAt(r.trace, k);
      }
    }
  }

  lemma {:induction false} ShiftKeepsTidy(r: Run, i: int, key: int, j: int)
    requires -1 <= j < i < |r.arr| && LogTidy(r)
    ensures var r' := Shift(r, i, key, j);
      LogTidy(r') && r'.trace != [] && r'.arr == r'.trace[|r'.trace| - 1].snapshot
    decreases j + 1
  {
    if j >= 0 && key < r.arr[j] {
      var a := r.arr[j + 1 := r.arr[j]];
      YieldKeepsTidy(r, Append(r.(arr := a), Moved(r.arr[j], key)), [j, i]);
      ShiftKeepsTidy(Record(r, a, Moved(r.arr[j], key), [j, i]), i, key, j - 1);
    } else {
      YieldKeepsTidy(r, r.(arr := r.arr[j + 1 := key]), [j + 1, i]);
    }
  }

  /** Inserting u[i] at the scan's stop keeps the array part of the run
      invariant one index further on, and the elements passed over are the
      inversions s[i] closes. */
  lemma InsertKeepsOrder(s: seq<int>, u: seq<int>, i: int)
    requires 1 <= i < |s| == |u| && Sorted(u[..i]) && u[i..] == s[i..] && multiset(u) == multiset(s)
    ensures var p := InsertPos(u, u[i], i - 1);
      var b := Insert(u, i, p);
      && Sorted(b[..i + 1]) && b[i + 1..] == s[i + 1..] && multiset(b) == multiset(s)
      && Inversions(s[..i + 1]) == Inversions(s[..i]) + (i - p)
  {
    var p := InsertPos(u, u[i], i - 1);
    InsertSorted(u, i, p);
    InsertPermutes(u, i, p);
    PassedOver(u, i, p);
    ShiftCount(s, u, i);
    assert u[i + 1..] == u[i..][1..];
    assert s[i + 1..] == s[i..][1..];
  }

  /** One iteration keeps the array and the counts on track. */
  lemma ShiftProgresses(s: seq<int>, r: Run, i: int)
    requires Progress(s, r, i) && i < |s|
    ensures var last := i - 1; Progress(s, Shift(r, i, r.arr[i], last), i + 1)
  {
    var last := i - 1;
    var u := r.arr;
    assert Shifted(u, i, last) == u;
    ShiftState(r, u, i, last);
    InsertKeepsOrder(s, u, i);
  }

  lemma ShiftKeepsValid(s: seq<int>, r: Run, i: int)
    requires Valid(s, r, i) && i < |s|
    ensures var last := i - 1; Valid(s, Shift(r, i, r.arr[i], last), i + 1)
  {
    var last := i - 1;
    ShiftProgresses(s, r, i);
    ShiftKeepsTidy(r, i, r.arr[i], last);
    assert Current(s, Shift(r, i, r.arr[i], last));
  }

  /** One iteration of the outer loop on a sorted prefix u[..i]: afterwards
      arr[..i + 1] is an ascending permutation of u[..i + 1] and arr[i + 1..]
      is untouched; the log gained one entry per element passed over. */
  lemma Iteration(r: Run, i: int)
    requires 1 <= i < |r.arr| && Sorted(r.arr[..i])
    ensures var last := i - 1;
      var u, r' := r.arr, Shift(r, i, r.arr[i], last);
      && Sorted(r'.arr[..i + 1]) && multiset(r'.arr[..i + 1]) == multiset(u[..i + 1])
      && r'.arr[i + 1..] == u[i + 1..]
      && r'.log == r.log + Moves(u, i, last)
  {
    var last := i - 1;
    var u := r.arr;
    assert Shifted(u, i, last) == u;
    ShiftState(r, u, i, last);
    ShiftLog(r, u, i, last);
    var p := InsertPos(u, u[i], last);
    InsertSorted(u, i, p);
    InsertPermutes(u, i, p);
    InsertPermutesPrefix(u, i, p);
  }

  lemma {:induction false} OuterKeepsValid(s: seq<int>, r: Run, i: int)
    requires Valid(s, r, i)
    ensures Valid(s, Outer(r, i), |s|)
    decreases |s| - i
  {
    var last := i - 1;
    if i < |s| {
      ShiftKeepsValid(s, r, i);
      OuterKeepsValid(s, Shift(r, i, r.arr[i], last), i + 1);
    }
  }

  /** The insertion engine sorts and permutes; it logs one entry per
      inversion of the input and emits one more step per outer index
      (none at all for an empty input); every step's log is a prefix of
      the final log and grows by at most one entry from the step before, and
      the last step carries the whole log. */
  lemma InsertionCorrect(s: seq<int>)
    ensures var r := Insertion(s);
      && Sorted(r.arr) && multiset(r.arr) == multiset(s)
      && |r.log| == Inversions(s)
      && |r.trace| == (if s == [] then 0 else |s| - 1 + Inversions(s))
      && LogTidy(r) && Current(s, r)
  {
    if s != [] {
      assert s[..1] == [s[0]] && [s[0]][..0] == [];
      assert Sorted(s[..1]);
      assert Inversions(s[..1]) == 0;
      assert Progress(s, Start(s), 1);
      assert LogTidy(Start(s)) && Current(s, Start(s));
      OuterKeepsValid(s, Start(s), 1);
      var r := Insertion(s);
      assert r.arr[..|s|] == r.arr && s[..|s|] == s;
    }
  }

  /** The engine on the working array: `insertion_sort(arr)` drained to the end. */
  method Sort(a: array<int>) returns (trace: seq<Step>)
    modifies a
    ensures a[..] == Insertion(old(a[..])).arr && trace == Insertion(old(a[..])).trace
    ensures Sorted(a[..]) && multiset(a[..]) == multiset(old(a[..]))
    ensures |trace| == if a.Length == 0 then 0 else a.Length - 1 + Inversions(old(a[..]))
  {
    ghost var s := a[..];
    var log: seq<Entry> := [];
    trace := [];
    var n := a.Length;
    var i := 1;
    while i < n
      invariant 1 <= i
      invariant Outer(Run(a[..], log, trace), i) == Insertion(s)
      decreases n - i
    {
      var key := a[i];
      var j := i - 1;
      OuterStep(Run(a[..], log, trace), i, key, j);
      while j >= 0 && key < a[j]
        invariant -1 <= j < i
        invariant Outer(Shift(Run(a[..], log, trace), i, key, j), i + 1) == Insertion(s)
        decreases j + 1
      {
        ghost var cur := Run(a[..], log, trace);
        ShiftStep(cur, i, key, j);
        log := log + [Moved(a[j], key)];
        a[j + 1] := a[j];
        assert a[..] == cur.arr[j + 1 := cur.arr[j]];
        j := j - 1;
        trace := trace + [Step(a[..], [j + 1, i], log)];
      }
      ghost var cur := Run(a[..], log, trace);
      ShiftStep(cur, i, key, j);
      a[j + 1] := key;
      assert a[..] == cur.arr[j + 1 := key];
      trace := trace + [Step(a[..], [j + 1, i], log)];
      i := i + 1;
    }
    InsertionCorrect(s);
  }
}
