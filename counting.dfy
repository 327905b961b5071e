// Inversion counting, used for the step counts of bubble and insertion sort.

module Counting {
  import opened Steps

  /** The number of elements of t strictly greater than x. */
  function Greater(t: seq<int>, x: int): nat {
    if t == [] then 0
    else Greater(t[..|t| - 1], x) + (if t[|t| - 1] > x then 1 else 0)
  }

  /** The number of pairs p < q with s[p] > s[q], counted by their right end. */
  function Inversions(s: seq<int>): nat {
    if s == [] then 0
    else Inversions(s[..|s| - 1]) + Greater(s[..|s| - 1], s[|s| - 1])
  }

  lemma {:induction false} GreaterConcat(a: seq<int>, b: seq<int>, x: int)
    ensures Greater(a + b, x) == Greater(a, x) + Greater(b, x)
  {
    if b != [] {
      assert (a + b)[..|a + b| - 1] == a + b[..|b| - 1];
      GreaterConcat(a, b[..|b| - 1], x);
    } else {
      assert a + b == a;
    }
  }

  /** Greater depends only on the multiset of t. */
  lemma {:induction false} GreaterPermutation(t: seq<int>, u: seq<int>, x: int)
    requires multiset(t) == multiset(u)
    ensures Greater(t, x) == Greater(u, x)
    decreases |t|
  {
    if t == [] {
      assert |multiset(u)| == 0;
    } else {
      var y := t[|t| - 1];
      var t0 := t[..|t| - 1];
      assert t == t0 + [y];
      assert y in multiset(u);
      var p :| 0 <= p < |u| && u[p] == y;
      var u0 := u[..p] + u[p + 1..];
      assert u == u[..p] + [y] + u[p + 1..];
      assert multiset(u0) == multiset(u) - multiset{y};
      assert multiset(t0) == multiset(t) - multiset{y};
      GreaterPermutation(t0, u0, x);
      GreaterConcat(u[..p], [y], x);
      GreaterConcat(u[..p] + [y], u[p + 1..], x);
      GreaterConcat(u[..p], u[p + 1..], x);
      assert [y][..0] == [];
    }
  }

  lemma {:induction false} GreaterNone(t: seq<int>, x: int)
    ensures Greater(t, x) == 0 <==> forall k :: 0 <= k < |t| ==> t[k] <= x
  {
    if t != [] {
      GreaterNone(t[..|t| - 1], x);
    }
  }

  lemma {:induction false} GreaterAll(t: seq<int>, x: int)
    requires forall k :: 0 <= k < |t| ==> t[k] > x
    ensures Greater(t, x) == |t|
  {
    if t != [] {
      GreaterAll(t[..|t| - 1], x);
    }
  }

  /** Sorted input is exactly the input without inversions. */
  lemma {:induction false} InversionsZeroIffSorted(s: seq<int>)
    ensures Inversions(s) == 0 <==> Sorted(s)
  {
    if s != [] {
      var s0, y := s[..|s| - 1], s[|s| - 1];
      InversionsZeroIffSorted(s0);
      GreaterNone(s0, y);
      if Sorted(s) {
        assert Sorted(s0);
      }
    }
  }

  /** Swapping an adjacent out-of-order pair removes exactly one inversion. */
  lemma {:induction false} SwapAdjacentInversion(s: seq<int>, j: int)
    requires 0 <= j && j + 1 < |s| && s[j] > s[j + 1]
    ensures Inversions(Swap(s, j, j + 1)) == Inversions(s) - 1
    decreases |s|
  {
    var s' := Swap(s, j, j + 1);
    var n := |s|;
    if j + 2 < n {
      var t := s[..n - 1];
      assert s'[..n - 1] == Swap(t, j, j + 1);
      assert s'[n - 1] == s[n - 1];
      SwapPermutes(t, j, j + 1);
      GreaterPermutation(Swap(t, j, j + 1), t, s[n - 1]);
      SwapAdjacentInversion(t, j);
    } else {
      var u := s[..j];
      var a, b := s[j], s[j + 1];
      assert s[..n - 1] == u + [a] && (u + [a])[..|u|] == u;
      assert s'[..n - 1] == u + [b] && (u + [b])[..|u|] == u;
      assert s'[n - 1] == a;
      assert Inversions(u + [a]) == Inversions(u) + Greater(u, a);
      assert Inversions(u + [b]) == Inversions(u) + Greater(u, b);
      assert Greater(u + [a], b) == Greater(u, b) + 1;
      assert Greater(u + [b], a) == Greater(u, a);
    }
  }
}
